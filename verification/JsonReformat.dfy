/** When reformatting twice is reformatting once. Two values print the same text only if both or neither have a member
    whose name was lost, so a text in which a name was lost cannot come out of its own reparse. */
module JsonReformat {
  import opened Text
  import opened JsonNumber
  import opened JsonParser
  import opened JsonText
  import opened JsonPrinter
  import opened JsonRoundTrip
  import opened JsonFaithful

  // ---------------------------------------------------------------- the printed text between head and separator

  function NameText(k: string): string {
    if k == "" then "" else "\"" + EscapeString(k) + "\"" + ": "
  }

  ghost function Body(depth: nat, v: Value, end: string): string
    decreases v, 1
  {
    match v
    case Array(vs) => "[\n" + ElementsBody(depth + 1, vs, Closing(vs == [], depth, "]", end))
    case Object(m) => "{\n" + ObjectBody(depth + 1, v, SortedKeys(m.Keys), Closing(m == map[], depth, "}", end))
    case _ => ScalarBody(v) + end
  }

  /** The end of a bracketed list: the last entry's comma is blanked. */
  function Closing(empty: bool, depth: nat, close: string, end: string): string {
    (if empty then "" else " \n") + (Tabs(depth) + (close + end))
  }

  ghost function ElementsBody(depth: nat, vs: seq<Value>, end: string): string
    decreases vs, 0
  {
    if vs == [] then end
    else Tabs(depth) + Body(depth, vs[0], if |vs| == 1 then end else ",\n" + ElementsBody(depth, vs[1..], end))
  }

  ghost function ObjectBody(depth: nat, o: Value, keys: seq<string>, end: string): string
    requires o.Object? && forall k :: k in keys ==> k in o.m
    decreases o, 0, |keys|
  {
    if keys == [] then end
    else
      assert keys[0] in o.m;
      Tabs(depth) + (NameText(keys[0])
        + Body(depth, o.m[keys[0]], if |keys| == 1 then end else ",\n" + ObjectBody(depth, o, keys[1..], end)))
  }

  lemma HeadIsName(depth: nat, name: string)
    ensures Head(depth, name) == Tabs(depth) + NameText(name)
  {
  }

  /** An entry is its head, its body, and its separator. */
  lemma {:induction false} TagBody(depth: nat, name: string, v: Value, end: string)
    ensures Entry(Tag(depth, name, v)) && Chop(Tag(depth, name, v)) + end == Head(depth, name) + Body(depth, v, end)
    decreases v, 1
  {
    match v
    case Array(vs) => ArrayTagBody(depth, name, v, end);
    case Object(m) => ObjectTagBody(depth, name, v, end);
    case _ =>
      hide Head, ScalarBody, Entry, Chop, Tag;
      ScalarTag(depth, name, v);
      EntryMade(Head(depth, name) + ScalarBody(v));
      Assoc(Head(depth, name), ScalarBody(v), end);
  }

  lemma {:induction false} ArrayTagBody(depth: nat, name: string, v: Value, end: string)
    requires v.Array?
    ensures Entry(Tag(depth, name, v)) && Chop(Tag(depth, name, v)) + end == Head(depth, name) + Body(depth, v, end)
    decreases v, 0
  {
    hide Head, Container, Closing, ElementTags, ElementsBody, Entry, Chop;
    var vs := v.vs;
    if vs == [] { EmptyLists(depth + 1, v); NoElements(depth + 1, Closing(true, depth, "]", end)); }
    else { ElementTagsBody(depth + 1, vs, Closing(false, depth, "]", end)); EntryLong(ElementTags(depth + 1, vs)); }
    ContainerBody(Head(depth, name), "[", ElementTags(depth + 1, vs), depth, "]", end);
  }

  lemma {:induction false} ObjectTagBody(depth: nat, name: string, v: Value, end: string)
    requires v.Object?
    ensures Entry(Tag(depth, name, v)) && Chop(Tag(depth, name, v)) + end == Head(depth, name) + Body(depth, v, end)
    decreases v, 0
  {
    hide Head, Container, Closing, MemberTags, ObjectBody, Entry, Chop, SortedKeys, Tag, Body;
    ObjectUnfolds(depth, name, v, end);
    var keys := SortedKeys(v.m.Keys);
    NoKeys(v.m);
    if keys == [] { EmptyLists(depth + 1, v); NoMembers(depth + 1, v, Closing(true, depth, "}", end)); }
    else { MemberTagsBody(depth + 1, v, keys, Closing(false, depth, "}", end)); EntryLong(MemberTags(depth + 1, v, keys)); }
    ContainerBody(Head(depth, name), "{", MemberTags(depth + 1, v, keys), depth, "}", end);
  }

  lemma ObjectUnfolds(depth: nat, name: string, v: Value, end: string)
    requires v.Object?
    ensures var keys := SortedKeys(v.m.Keys);
            && Tag(depth, name, v) == Container(Head(depth, name), "{", MemberTags(depth + 1, v, keys), depth, "}")
            && Body(depth, v, end) == "{\n" + ObjectBody(depth + 1, v, keys, Closing(v.m == map[], depth, "}", end))
  {
    hide Head, Container, Closing, MemberTags, ObjectBody, SortedKeys;
  }

  lemma NoElements(depth: nat, end: string)
    ensures "" + end == end == ElementsBody(depth, [], end)
  {
  }

  lemma NoMembers(depth: nat, o: Value, end: string)
    requires o.Object?
    ensures "" + end == end == ObjectBody(depth, o, [], end)
  {
  }

  lemma EntryLong(s: string)
    requires Entry(s)
    ensures s != ""
  {
  }

  lemma ContainerBody(head: string, open: string, tags: string, depth: nat, close: string, end: string)
    requires |open| == 1 && open != "," && (tags == "" || Entry(tags))
    ensures var c := Container(head, open, tags, depth, close);
            Entry(c) && Chop(c) + end
              == head + (open + "\n" + ((if tags == "" then "" else Chop(tags)) + Closing(tags == "", depth, close, end)))
  {
    hide Tabs, RemoveLastComma;
    var start := head + (open + "\n") + tags;
    EntryMade(RemoveLastComma(start) + Tabs(depth) + close);
    TailConcat(RemoveLastComma(start), Tabs(depth), close, end);
    var tail := Tabs(depth) + (close + end);
    if tags == "" {
      assert start == head + (open + "\n") && start[|start| - 2] == open[0];
      NoLastComma(start);
      Assoc(head, open + "\n", tail);
      assert "" + ("" + tail) == tail;
    } else {
      EntryChop(tags);
      Assoc(head + (open + "\n"), Chop(tags), ",\n");
      LastComma(head + (open + "\n") + Chop(tags));
      FlatConcat(head, open + "\n", Chop(tags), " \n", tail);
      Assoc(open + "\n", Chop(tags), " \n" + tail);
    }
  }

  lemma {:induction false} ElementTagsBody(depth: nat, vs: seq<Value>, end: string)
    requires vs != []
    ensures Entry(ElementTags(depth, vs)) && Chop(ElementTags(depth, vs)) + end == ElementsBody(depth, vs, end)
    decreases vs, 0
  {
    hide Tabs, Body, Tag, Entry, Chop;
    HeadIsName(depth, "");
    assert Tabs(depth) + "" == Tabs(depth);
    if |vs| == 1 {
      TagBody(depth, "", vs[0], end);
      assert vs[1..] == [] && ElementTags(depth, vs) == Tag(depth, "", vs[0]) + "" == Tag(depth, "", vs[0]);
    } else {
      ElementTagsBody(depth, vs[1..], end);
      TagBody(depth, "", vs[0], ",\n" + ElementsBody(depth, vs[1..], end));
      TwoEntries(Tag(depth, "", vs[0]), ElementTags(depth, vs[1..]), end);
    }
  }

  lemma TwoEntries(first: string, more: string, end: string)
    requires Entry(first) && Entry(more)
    ensures Entry(first + more) && Chop(first + more) + end == Chop(first) + (",\n" + (Chop(more) + end))
  {
    assert first == Chop(first) + ",\n" && more == Chop(more) + ",\n";
    assert Chop(first + more) == first + Chop(more);
  }

  lemma {:induction false} MemberTagsBody(depth: nat, o: Value, keys: seq<string>, end: string)
    requires o.Object? && keys != [] && forall k :: k in keys ==> k in o.m
    ensures Entry(MemberTags(depth, o, keys)) && Chop(MemberTags(depth, o, keys)) + end == ObjectBody(depth, o, keys, end)
    decreases o, 0, |keys|
  {
    hide Tabs, Body, Tag, Entry, Chop, NameText;
    var k := keys[0];
    assert k in o.m;
    HeadIsName(depth, k);
    var rest := if |keys| == 1 then end else ",\n" + ObjectBody(depth, o, keys[1..], end);
    TagBody(depth, k, o.m[k], rest);
    Assoc(Tabs(depth), NameText(k), Body(depth, o.m[k], rest));
    if |keys| == 1 {
      assert keys[1..] == [] && MemberTags(depth, o, keys) == Tag(depth, k, o.m[k]) + "" == Tag(depth, k, o.m[k]);
    } else {
      MemberTagsBody(depth, o, keys[1..], end);
      TwoEntries(Tag(depth, k, o.m[k]), MemberTags(depth, o, keys[1..]), end);
    }
  }

  // ---------------------------------------------------------------- equal texts

  /** What can follow a printed value: a comma or a blank, each before a line break. */
  predicate Ends(e: string) { |e| >= 2 && (e[0] == ',' || e[0] == ' ') && e[1] == '\n' }

  /** A value without lost names is read back from its body, and what follows is left. */
  lemma BodyRead(depth: nat, v: Value, end: string)
    requires NoEmptyKeys(v) && Ends(end)
    ensures ParseValue(Body(depth, v, end)) == Parsed(true, Kept(v), end)
  {
    hide Head, Body, Tag, Kept, ParseValue, TreeOf, TreeText;
    TagBody(depth, "", v, end);
    TagText(depth, "", v);
    var t := TreeOf(depth, v);
    Assoc(Head(depth, ""), TreeText(t), end);
    EntryMade(Head(depth, "") + TreeText(t));
    SameRest(Head(depth, ""), TreeText(t) + end, Body(depth, v, end));
    TreeMeaning(depth, v);
    ParseTree([], t, end);
    assert GapText([]) + (TreeText(t) + end) == TreeText(t) + end;
  }

  lemma SameRest(a: string, b: string, c: string)
    requires a + b == a + c
    ensures b == c
  {
    assert (a + b)[|a|..] == b && (a + c)[|a|..] == c;
  }

  /** The first character tells what is printed. */
  lemma BodyStart(depth: nat, v: Value, end: string)
    ensures var b := Body(depth, v, end);
            && |b| >= 1 && b[0] != '\t' && b[0] !in "]}"
            && (b[0] == '[' <==> v.Array?) && (b[0] == '{' <==> v.Object?) && (b[0] == '"' <==> v.Str?)
  {
    hide NumberText, EscapeString, ElementsBody, ObjectBody;
    if v.Num? { NumberStart(v.n); }
  }

  lemma NumberStart(n: Number)
    ensures var t := NumberText(n, PRECISION); |t| >= 1 && (IsDigit(t[0]) || t[0] in "+-.")
  {
    hide GeneralLiteral, Rounded, ValidLiteral, LiteralText;
    GeneralLiteralValue(Rounded(n, PRECISION), PRECISION);
    LiteralStart(GeneralLiteral(Rounded(n, PRECISION), PRECISION));
  }

  /** Equal texts, one of them of a value without lost names: no name was lost in the other, and the same is left. */
  lemma {:induction false} SameBody(depth: nat, v: Value, w: Value, e: string, f: string)
    requires NoEmptyKeys(w) && Ends(e) && Ends(f) && Body(depth, v, e) == Body(depth, w, f)
    ensures NoEmptyKeys(v) && e == f
    decreases v, 1
  {
    hide ParseValue, Kept, ScalarBody, ElementsBody, ObjectBody, Closing;
    BodyStart(depth, v, e);
    BodyStart(depth, w, f);
    if v.Array? { SameArray(depth, v, w, e, f); }
    else if v.Object? { SameObject(depth, v, w, e, f); }
    BodyRead(depth, v, e);
    BodyRead(depth, w, f);
  }

  lemma {:induction false} SameArray(depth: nat, v: Value, w: Value, e: string, f: string)
    requires v.Array? && w.Array? && NoEmptyKeys(w) && Ends(e) && Ends(f) && Body(depth, v, e) == Body(depth, w, f)
    ensures NoEmptyKeys(v)
    decreases v, 0
  {
    hide Tabs, ElementsBody;
    var c, d := Closing(v.vs == [], depth, "]", e), Closing(w.vs == [], depth, "]", f);
    SameRest("[\n", ElementsBody(depth + 1, v.vs, c), ElementsBody(depth + 1, w.vs, d));
    ClosingStart(v.vs == [], depth, "]", e);
    ClosingStart(w.vs == [], depth, "]", f);
    ElementsStart(depth + 1, v.vs, c);
    ElementsStart(depth + 1, w.vs, d);
    if v.vs != [] {
      SameElements(depth + 1, v.vs, w.vs, c, d);
    }
  }

  lemma ClosingStart(empty: bool, depth: nat, close: string, end: string)
    requires close in ["]", "}"]
    ensures var c := Closing(empty, depth, close, end);
            if empty then |c| > depth && c[depth] == close[0] else Ends(c) && c[0] == ' '
  {
  }

  lemma ElementsStart(depth: nat, vs: seq<Value>, end: string)
    requires depth > 0
    ensures var b := ElementsBody(depth, vs, end); if vs == [] then b == end else |b| >= depth && b[depth - 1] == '\t'
  {
  }

  lemma {:induction false} SameElements(depth: nat, vs: seq<Value>, ws: seq<Value>, c: string, d: string)
    requires vs != [] && ws != [] && forall e :: e in ws ==> NoEmptyKeys(e)
    requires Ends(c) && Ends(d) && c[0] == d[0] == ' ' && ElementsBody(depth, vs, c) == ElementsBody(depth, ws, d)
    ensures forall e :: e in vs ==> NoEmptyKeys(e)
    decreases vs, 0
  {
    hide NoEmptyKeys, Tabs, Body;
    var e := if |vs| == 1 then c else ",\n" + ElementsBody(depth, vs[1..], c);
    var f := if |ws| == 1 then d else ",\n" + ElementsBody(depth, ws[1..], d);
    SameRest(Tabs(depth), Body(depth, vs[0], e), Body(depth, ws[0], f));
    SameBody(depth, vs[0], ws[0], e, f);
    if |vs| > 1 {
      SameRest(",\n", ElementsBody(depth, vs[1..], c), ElementsBody(depth, ws[1..], d));
      SameElements(depth, vs[1..], ws[1..], c, d);
    }
    assert forall x :: x in vs ==> x == vs[0] || x in vs[1..];
  }

  lemma {:induction false} SameObject(depth: nat, v: Value, w: Value, e: string, f: string)
    requires v.Object? && w.Object? && NoEmptyKeys(w) && Ends(e) && Ends(f) && Body(depth, v, e) == Body(depth, w, f)
    ensures NoEmptyKeys(v)
    decreases v, 0
  {
    hide Tabs, ObjectBody, SortedKeys;
    var ks, js := SortedKeys(v.m.Keys), SortedKeys(w.m.Keys);
    NoKeys(v.m);
    NoKeys(w.m);
    var c, d := Closing(v.m == map[], depth, "}", e), Closing(w.m == map[], depth, "}", f);
    SameRest("{\n", ObjectBody(depth + 1, v, ks, c), ObjectBody(depth + 1, w, js, d));
    ClosingStart(v.m == map[], depth, "}", e);
    ClosingStart(w.m == map[], depth, "}", f);
    MembersStart(depth + 1, v, ks, c);
    MembersStart(depth + 1, w, js, d);
    if ks != [] {
      SameMembers(depth + 1, v, ks, w, js, c, d);
      assert forall k :: k in v.m ==> k in ks;
    }
  }

  lemma MembersStart(depth: nat, o: Value, keys: seq<string>, end: string)
    requires depth > 0 && o.Object? && forall k :: k in keys ==> k in o.m
    ensures var b := ObjectBody(depth, o, keys, end); if keys == [] then b == end else |b| >= depth && b[depth - 1] == '\t'
  {
  }

  lemma {:induction false} SameMembers(depth: nat, o: Value, ks: seq<string>, w: Value, js: seq<string>, c: string, d: string)
    requires o.Object? && w.Object? && NoEmptyKeys(w) && ks != [] && js != []
    requires (forall k :: k in ks ==> k in o.m) && forall k :: k in js ==> k in w.m
    requires Ends(c) && Ends(d) && c[0] == d[0] == ' ' && ObjectBody(depth, o, ks, c) == ObjectBody(depth, w, js, d)
    ensures forall k :: k in ks ==> k != "" && k in o.m && NoEmptyKeys(o.m[k])
    decreases o, 0, |ks|
  {
    hide Tabs, Body, NameText;
    var k, j := ks[0], js[0];
    assert k in o.m && j in w.m;
    var e := if |ks| == 1 then c else ",\n" + ObjectBody(depth, o, ks[1..], c);
    var f := if |js| == 1 then d else ",\n" + ObjectBody(depth, w, js[1..], d);
    SameRest(Tabs(depth), NameText(k) + Body(depth, o.m[k], e), NameText(j) + Body(depth, w.m[j], f));
    SameName(depth, k, j, o.m[k], e, Body(depth, w.m[j], f));
    SameBody(depth, o.m[k], w.m[j], e, f);
    if |ks| > 1 {
      SameRest(",\n", ObjectBody(depth, o, ks[1..], c), ObjectBody(depth, w, js[1..], d));
      SameMembers(depth, o, ks[1..], w, js[1..], c, d);
    }
    assert forall x :: x in ks ==> x == k || x in ks[1..];
  }

  /** A written name cannot be mistaken for the value of a member that lost its name. */
  lemma SameName(depth: nat, k: string, j: string, v: Value, e: string, more: string)
    requires j != "" && Ends(e) && NameText(k) + Body(depth, v, e) == NameText(j) + more
    ensures k != "" && Body(depth, v, e) == more
  {
    hide EscapeString, Body;
    var b := Body(depth, v, e);
    NameConcat(j, more);
    BodyStart(depth, v, e);
    if k == "" {
      assert "" + b == b;
      StringBody(depth, v, e);
      SameQuoted(v.s, e, j, ": " + more);
      assert false;
    } else {
      NameConcat(k, b);
      SameQuoted(k, ": " + b, j, ": " + more);
      SameRest(": ", b, more);
    }
  }

  lemma NameConcat(k: string, more: string)
    requires k != ""
    ensures NameText(k) + more == "\"" + EscapeString(k) + "\"" + (": " + more)
    ensures (NameText(k) + more)[0] == '"'
  {
    hide EscapeString;
    Assoc("\"" + EscapeString(k) + "\"", ": ", more);
  }

  lemma StringBody(depth: nat, v: Value, e: string)
    requires v.Str?
    ensures Body(depth, v, e) == "\"" + EscapeString(v.s) + "\"" + e
  {
  }

  /** A quoted string ends where it ends. */
  lemma SameQuoted(s: string, e: string, t: string, f: string)
    requires "\"" + EscapeString(s) + "\"" + e == "\"" + EscapeString(t) + "\"" + f
    ensures s == t && e == f
  {
    hide EscapeString, ParseString, PiecesOf, PiecesText, PiecesMeaning;
    QuotedRead(s, e);
    QuotedRead(t, f);
  }

  lemma QuotedRead(s: string, e: string)
    ensures ParseString("\"" + EscapeString(s) + "\"" + e) == Parsed(true, s, e)
  {
    hide EscapeString, ParseString, PiecesOf, PiecesText, PiecesMeaning;
    EscapeStringExact(s);
    ParseStringExact([], QuotedOf(s), e);
    assert GapText([]) + (QuotedText(QuotedOf(s)) + e) == "\"" + EscapeString(s) + "\"" + e;
  }

  // ---------------------------------------------------------------- reformat

  lemma JsonBody(v: Value)
    ensures Json(v) == Body(0, v, " \n")
  {
    hide Tag, Body;
    NoHead();
    TagBody(0, "", v, " \n");
    BodyStart(0, v, "");
    TagBody(0, "", v, "");
    var b := Chop(Tag(0, "", v));
    assert b + "" == b && "" + Body(0, v, "") == Body(0, v, "") && "" + Body(0, v, " \n") == Body(0, v, " \n");
    EntryChop(Tag(0, "", v));
    LastComma(b);
  }

  /** Reformatting twice is reformatting once exactly when the text is rejected, or no member anywhere in what it is
      read as has an empty name. */
  lemma ReformatIdempotentExactly(s: string)
    ensures Reformat(Reformat(s)) == Reformat(s)
        <==> (ParseDocument(s).ok ==> NoEmptyKeys(ParseDocument(s).v))
  {
    hide ParseDocument, Json, NoEmptyKeys, Body, Unnamed;
    var d := ParseDocument(s);
    if d.ok && !NoEmptyKeys(d.v) {
      var t := Json(d.v);
      JsonBody(d.v);
      BodyStart(0, d.v, " \n");
      UnnamedJson(d.v);
      DocumentUnnamed(t);
      var again := ParseDocument(t);
      if again.ok && Json(again.v) == t {
        JsonBody(again.v);
        SameBody(0, d.v, again.v, " \n", " \n");
        assert false;
      }
    } else {
      ReformatIdempotent(s);
    }
  }

  /** An object with one member, whose name is empty. */
  const NAMELESS := "{\"\":null}"

  /** It is accepted, and reformatting it twice differs from reformatting it once. */
  lemma NamelessReformat()
    ensures ParseDocument(NAMELESS) == Parsed(true, Object(map["" := Null]), "")
    ensures Reformat(Reformat(NAMELESS)) != Reformat(NAMELESS)
  {
    hide Reformat, ParseDocument;
    NamelessIsRead();
    var v := Object(map["" := Null]);
    assert "" in v.m;
    ReformatIdempotentExactly(NAMELESS);
  }

  lemma NamelessIsRead()
    ensures ParseDocument(NAMELESS) == Parsed(true, Object(map["" := Null]), "")
  {
    hide ParseObject;
    var members := [Member([], QuotedOf(""), [], Item([], TNull, []))];
    var t := TObject(members, Tail(false, []));
    NamelessText(members);
    assert Meaning(t) == Object(map["" := Null]) by {
      EscapeStringExact("");
      assert members[1..] == [];
    }
    ParseObjectTree([], t, "");
    assert GapText([]) + (TreeText(t) + "") == NAMELESS;
  }

  lemma NamelessText(members: seq<Member>)
    requires members == [Member([], QuotedOf(""), [], Item([], TNull, []))]
    ensures Valid(TObject(members, Tail(false, []))) && TreeText(TObject(members, Tail(false, []))) == NAMELESS
  {
    assert PiecesText([]) == "" && GapText([]) == "";
    assert QuotedText(QuotedOf("")) == "\"\"";
    assert ItemText(members[0].item) == "" + "null" + "" == "null";
    assert MemberText(members[0]) == "" + "\"\"" + "" + ":" + "null" == "\"\":null";
    assert TailText(Tail(false, [])) == "";
  }
}
