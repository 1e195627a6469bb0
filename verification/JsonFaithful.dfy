/** Exactly when `json()` followed by parsing gives the value back, and `reformat`. */
module JsonFaithful {
  import opened Text
  import opened JsonNumber
  import opened JsonParser
  import opened JsonText
  import opened JsonPrinter
  import opened JsonRoundTrip

  /** Every value was set, and no number has more digits than are printed. */
  ghost predicate Intact(v: Value, precision: nat) {
    match v
    case Invalid => false
    case Num(n) => Digits(n) <= precision
    case Array(vs) => forall e :: e in vs ==> Intact(e, precision)
    case Object(m) => forall k :: k in m ==> Intact(m[k], precision)
    case _ => true
  }

  lemma {:induction false} KeptExactly(v: Value)
    ensures Kept(v) == v <==> Intact(v, PRECISION)
    decreases v
  {
    hide Rounded, Digits;
    match v
    case Num(n) => RoundedExact(n, PRECISION);
    case Array(vs) =>
      forall i | 0 <= i < |vs| ensures Kept(vs[i]) == vs[i] <==> Intact(vs[i], PRECISION) {
        KeptExactly(vs[i]);
      }
      if Kept(v) == v {
        forall e | e in vs ensures Intact(e, PRECISION) {
          var i :| 0 <= i < |vs| && vs[i] == e;
          assert Kept(v).vs[i] == Kept(vs[i]);
        }
      }
      if Intact(v, PRECISION) {
        assert forall i :: 0 <= i < |vs| ==> vs[i] in vs;
        assert Kept(v).vs == vs;
      }
    case Object(m) =>
      forall k | k in m ensures Kept(m[k]) == m[k] <==> Intact(m[k], PRECISION) {
        KeptExactly(m[k]);
      }
      if Kept(v) == v {
        forall k | k in m ensures Intact(m[k], PRECISION) {
          assert Kept(v).m[k] == Kept(m[k]);
        }
      }
      if Intact(v, PRECISION) {
        assert Kept(v).m == m;
      }
    case _ =>
  }

  // ---------------------------------------------------------------- what parsing never produces

  ghost predicate NeverInvalid(v: Value) {
    match v
    case Invalid => false
    case Array(vs) => forall e :: e in vs ==> NeverInvalid(e)
    case Object(m) => forall k :: k in m ==> NeverInvalid(m[k])
    case _ => true
  }

  /** An accepted value has no unset part. */
  lemma {:induction false} ParsedIsSet(s: string)
    ensures ParseValue(s).ok ==> NeverInvalid(ParseValue(s).v)
    decreases |s|, 3
  {
    hide ParseString, ParseNumber, ParseBool, ParseNull, Match;
    var sc := ParseScalar(s);
    if !sc.ok {
      var a := if NextIs('[', sc.rest) then ParseArray(sc.rest) else Parsed(false, [], sc.rest);
      if NextIs('[', sc.rest) { ParsedArrayIsSet(sc.rest); }
      if a.ok {
        assert NeverInvalid(Array(a.v));
      } else {
        ParsedObjectIsSet(a.rest);
        var o := ParseObject(a.rest);
        assert o.ok ==> NeverInvalid(Object(o.v));
      }
    }
  }

  lemma {:induction false} ParsedArrayIsSet(s: string)
    ensures var r := ParseArray(s); r.ok ==> forall e :: e in r.v ==> NeverInvalid(e)
    decreases |s|, 2
  {
    var open := Match("[", s);
    if open.ok && !Match("]", open.rest).ok {
      ParsedElementsAreSet(Match("]", open.rest).rest, []);
    }
  }

  lemma {:induction false} ParsedElementsAreSet(s: string, acc: seq<Value>)
    requires forall e :: e in acc ==> NeverInvalid(e)
    ensures var r := ParseElements(s, acc); r.ok ==> forall e :: e in r.v ==> NeverInvalid(e)
    decreases |s|, 4
  {
    hide Skip, ParseScalar;
    var v := ParseValue(s);
    ParsedIsSet(s);
    if v.ok && Match(",", v.rest).ok {
      ParsedElementsAreSet(Match(",", v.rest).rest, acc + [v.v]);
    }
  }

  lemma {:induction false} ParsedObjectIsSet(s: string)
    ensures var r := ParseObject(s); r.ok ==> forall k :: k in r.v ==> NeverInvalid(r.v[k])
    decreases |s|, 2
  {
    var open := Match("{", s);
    if open.ok && !Match("}", open.rest).ok {
      ParsedMembersAreSet(Match("}", open.rest).rest, map[]);
    }
  }

  lemma {:induction false} ParsedMembersAreSet(s: string, acc: map<string, Value>)
    requires forall k :: k in acc ==> NeverInvalid(acc[k])
    ensures var r := ParseMembers(s, acc); r.ok ==> forall k :: k in r.v ==> NeverInvalid(r.v[k])
    decreases |s|, 4
  {
    hide Skip, ParseScalar, ParseString;
    var key := ParseString(s);
    if key.ok && Match(":", key.rest).ok {
      var from := Match(":", key.rest).rest;
      var v := ParseValue(from);
      ParsedIsSet(from);
      if v.ok && Match(",", v.rest).ok {
        ParsedMembersAreSet(Match(",", v.rest).rest, acc[key.v := v.v]);
      }
    }
  }

  // ---------------------------------------------------------------- texts without an empty name

  predicate NextColon(s: string) { NextIs(':', SkipSpaces(s)) }

  /** Outside strings there is no `/` and no `'`, and no empty string is followed by a colon. */
  predicate Unnamed(s: string)
    decreases |s|
  {
    if s == "" then true
    else if s[0] in "/'" then false
    else if s[0] == '"' then
      var q := ScanString('"', s[1..]);
      q.ok ==> (q.v == "" ==> !NextColon(q.rest)) && Unnamed(q.rest)
    else Unnamed(s[1..])
  }

  predicate Bare(c: char) { c !in "/'\"" }

  lemma {:induction false} UnnamedDrop(s: string, n: nat)
    requires n <= |s| && Unnamed(s) && forall i :: 0 <= i < n ==> Bare(s[i])
    ensures Unnamed(s[n..])
  {
    if n > 0 {
      UnnamedDrop(s[1..], n - 1);
      assert s[1..][n - 1..] == s[n..];
    } else {
      assert s[n..] == s;
    }
  }

  lemma {:induction false} UnnamedAdd(a: string, s: string)
    requires Unnamed(s) && forall c :: c in a ==> Bare(c)
    ensures Unnamed(a + s)
  {
    if a == "" {
      assert a + s == s;
    } else {
      assert a[0] in a;
      assert (a + s)[1..] == a[1..] + s;
      UnnamedAdd(a[1..], s);
    }
  }

  lemma {:induction false} UnnamedSkip(s: string)
    requires Unnamed(s)
    ensures Skip(s) == SkipSpaces(s) && Unnamed(Skip(s))
    decreases |s|
  {
    if s != "" && IsSpace(s[0]) {
      UnnamedSkip(s[1..]);
      assert Skip(s) == Skip(s[1..]);
    }
  }

  lemma UnnamedMatch(pattern: string, s: string)
    requires Unnamed(s) && forall c :: c in pattern ==> Bare(c)
    ensures Unnamed(Match(pattern, s).rest)
  {
    UnnamedSkip(s);
    UnnamedMatchFrom(pattern, Skip(s), Skip(s), '\0');
  }

  lemma {:induction false} UnnamedMatchFrom(pattern: string, s: string, whole: string, last: char)
    requires Unnamed(s) && Unnamed(whole) && forall c :: c in pattern ==> Bare(c)
    ensures Unnamed(MatchFrom(pattern, s, whole, last).rest)
    decreases |s|
  {
    if pattern != "" && s != "" && s[0] == pattern[0] {
      assert pattern[0] in pattern;
      UnnamedDrop(s, 1);
      UnnamedMatchFrom(pattern[1..], s[1..], whole, s[0]);
    }
  }

  lemma UnnamedString(s: string)
    requires Unnamed(s)
    ensures var r := ParseString(s);
            && Unnamed(r.rest)
            && (r.ok && r.v == "" ==> !Match(":", r.rest).ok)
  {
    UnnamedSkip(s);
    MatchOne("\"", s);
    var t := Skip(s);
    if t != "" && t[0] == '"' {
      var q := ScanString('"', t[1..]);
      if q.ok { UnnamedSkip(q.rest); MatchOne(":", q.rest); } else { ScanFails('"', t[1..]); }
    }
  }

  lemma {:induction false} ScanFails(delimiter: char, s: string)
    requires !ScanString(delimiter, s).ok
    ensures ScanString(delimiter, s).rest == ""
    decreases |s|
  {
    if s != "" && s[0] != delimiter {
      if s[0] != '\\' { ScanFails(delimiter, s[1..]); }
      else if |s| >= 2 && s[1] != 'u' { ScanFails(delimiter, s[2..]); }
      else if |s| >= 6 { ScanFails(delimiter, s[6..]); }
    }
  }

  lemma UnnamedNumber(s: string)
    requires Unnamed(s)
    ensures Unnamed(ParseNumber(s).rest)
  {
    UnnamedSkip(s);
    var t := SkipSpaces(s);
    var (l, rest) := TakeLiteral(t);
    if ValidLiteral(l) {
      TakeLiteralSplits(t);
      LiteralBare(l);
      var n := |LiteralText(l)|;
      assert rest == t[n..];
      forall i | 0 <= i < n ensures Bare(t[i]) { assert t[i] == LiteralText(l)[i]; }
      UnnamedDrop(t, n);
    }
  }

  lemma LiteralBare(l: Literal)
    requires ValidLiteral(l)
    ensures forall c :: c in LiteralText(l) ==> Bare(c)
  {
    assert forall c :: IsDigit(c) ==> Bare(c);
    assert forall c :: c in "eE" ==> Bare(c);
    assert forall c :: c in SignText(l.sign) ==> Bare(c);
    assert forall c :: c in ExponentText(l.exponent) ==> Bare(c);
  }

  lemma UnnamedScalar(s: string)
    requires Unnamed(s)
    ensures Unnamed(ParseScalar(s).rest)
    ensures ParseScalar(s).ok ==> NoEmptyKeys(ParseScalar(s).v)
  {
    hide Match, Unnamed, ParseString, ParseNumber;
    UnnamedString(s);
    var st := ParseString(s);
    if !st.ok {
      UnnamedNumber(st.rest);
      var t := ParseNumber(st.rest).rest;
      UnnamedMatch("true", t);
      UnnamedMatch("false", Match("true", t).rest);
      UnnamedMatch("null", Match("false", Match("true", t).rest).rest);
    }
  }

  /** From such a text no member with an empty name can be read, wherever the parser gets to. */
  lemma {:induction false} UnnamedValue(s: string)
    requires Unnamed(s)
    ensures var r := ParseValue(s); Unnamed(r.rest) && (r.ok ==> NoEmptyKeys(r.v))
    decreases |s|, 3
  {
    hide ParseScalar, Match, Unnamed;
    UnnamedScalar(s);
    var sc := ParseScalar(s);
    if !sc.ok {
      var a := if NextIs('[', sc.rest) then ParseArray(sc.rest) else Parsed(false, [], sc.rest);
      if NextIs('[', sc.rest) { UnnamedArray(sc.rest); }
      if !a.ok { UnnamedObject(a.rest); }
    }
  }

  lemma {:induction false} UnnamedArray(s: string)
    requires Unnamed(s)
    ensures var r := ParseArray(s); Unnamed(r.rest) && (r.ok ==> forall e :: e in r.v ==> NoEmptyKeys(e))
    decreases |s|, 2
  {
    hide Unnamed, Skip;
    UnnamedMatch("[", s);
    var open := Match("[", s);
    if open.ok {
      UnnamedMatch("]", open.rest);
      if !Match("]", open.rest).ok { UnnamedElements(Match("]", open.rest).rest, []); }
    }
  }

  lemma {:induction false} UnnamedElements(s: string, acc: seq<Value>)
    requires Unnamed(s) && forall e :: e in acc ==> NoEmptyKeys(e)
    ensures var r := ParseElements(s, acc); Unnamed(r.rest) && (r.ok ==> forall e :: e in r.v ==> NoEmptyKeys(e))
    decreases |s|, 4
  {
    hide ParseScalar, Unnamed, Skip;
    UnnamedValue(s);
    var v := ParseValue(s);
    if v.ok {
      UnnamedMatch(",", v.rest);
      var comma := Match(",", v.rest);
      if comma.ok { UnnamedElements(comma.rest, acc + [v.v]); } else { UnnamedMatch("]", comma.rest); }
    } else {
      UnnamedMatch("]", v.rest);
    }
  }

  lemma {:induction false} UnnamedObject(s: string)
    requires Unnamed(s)
    ensures var r := ParseObject(s); Unnamed(r.rest) && (r.ok ==> forall k :: k in r.v ==> k != "" && NoEmptyKeys(r.v[k]))
    decreases |s|, 2
  {
    hide Unnamed, Skip;
    UnnamedMatch("{", s);
    var open := Match("{", s);
    if open.ok {
      UnnamedMatch("}", open.rest);
      if !Match("}", open.rest).ok { UnnamedMembers(Match("}", open.rest).rest, map[]); }
    }
  }

  lemma {:induction false} UnnamedMembers(s: string, acc: map<string, Value>)
    requires Unnamed(s) && forall k :: k in acc ==> k != "" && NoEmptyKeys(acc[k])
    ensures var r := ParseMembers(s, acc); Unnamed(r.rest) && (r.ok ==> forall k :: k in r.v ==> k != "" && NoEmptyKeys(r.v[k]))
    decreases |s|, 4
  {
    hide ParseScalar, ParseString, Unnamed, Skip;
    UnnamedString(s);
    var key := ParseString(s);
    if !key.ok {
      UnnamedMatch("}", key.rest);
    } else {
      UnnamedMatch(":", key.rest);
      var colon := Match(":", key.rest);
      if colon.ok {
        UnnamedValue(colon.rest);
        var v := ParseValue(colon.rest);
        if v.ok {
          UnnamedMatch(",", v.rest);
          var comma := Match(",", v.rest);
          if comma.ok { UnnamedMembers(comma.rest, acc[key.v := v.v]); } else { UnnamedMatch("}", comma.rest); }
        } else {
          UnnamedMatch("}", v.rest);
        }
      }
    }
  }

  // ---------------------------------------------------------------- what json() writes is such a text

  /** A printed entry without the two characters that end it. */
  function Chop(s: string): string
    requires |s| >= 2
  {
    s[..|s| - 2]
  }

  predicate Entry(s: string) { |s| >= 2 && s[|s| - 2..] == ",\n" }

  lemma EntryChop(s: string)
    requires Entry(s)
    ensures s == Chop(s) + ",\n"
  {
  }

  lemma EntryMade(s: string)
    ensures Entry(s + ",\n") && Chop(s + ",\n") == s
  {
  }

  /** A quoted string keeps the property when what follows it is no colon, or the string is not empty. */
  lemma UnnamedQuoted(s: string, rest: string)
    requires Unnamed(rest) && (s != "" || !NextColon(rest))
    ensures Unnamed("\"" + EscapeString(s) + "\"" + rest)
  {
    hide ScanString, EscapeString, PiecesOf, PiecesText, PiecesMeaning, UnicodePiece;
    EscapeStringExact(s);
    ScanExact('"', PiecesOf(s), rest);
    var t := "\"" + EscapeString(s) + "\"" + rest;
    assert t[1..] == EscapeString(s) + (['"'] + rest);
  }

  lemma UnnamedHead(depth: nat, name: string, s: string)
    requires Unnamed(s)
    ensures Unnamed(Head(depth, name) + s)
  {
    if name != "" {
      UnnamedAdd(": ", s);
      UnnamedQuoted(name, ": " + s);
      UnnamedAdd(Tabs(depth), "\"" + EscapeString(name) + "\"" + (": " + s));
      assert Head(depth, name) + s == Tabs(depth) + ("\"" + EscapeString(name) + "\"" + (": " + s));
    } else {
      UnnamedAdd(Tabs(depth), s);
      assert Head(depth, name) == Tabs(depth);
    }
  }

  lemma UnnamedContainer(depth: nat, name: string, open: string, tags: string, close: string, end: string)
    requires (open == "[" && close == "]") || (open == "{" && close == "}")
    requires Unnamed(end)
    requires tags == "" || (Entry(tags) && Unnamed(Chop(tags) + (" \n" + (Tabs(depth) + (close + end)))))
    ensures var c := Container(Head(depth, name), open, tags, depth, close); Entry(c) && Unnamed(Chop(c) + end)
  {
    hide Head, Tabs, RemoveLastComma, Unnamed, EscapeString;
    var head := Head(depth, name);
    var start := head + (open + "\n") + tags;
    var tail := Tabs(depth) + (close + end);
    EntryMade(RemoveLastComma(start) + Tabs(depth) + close);
    TailConcat(RemoveLastComma(start), Tabs(depth), close, end);
    assert open == "[" || open == "{";
    if tags == "" {
      UnnamedAdd(close, end);
      UnnamedTabs(depth, close + end);
      UnnamedAdd(open + "\n", tail);
      assert start == head + (open + "\n");
      assert start[|start| - 2] == open[0];
      NoLastComma(start);
      Assoc(head, open + "\n", tail);
      UnnamedHead(depth, name, open + "\n" + tail);
    } else {
      EntryChop(tags);
      Assoc(head + (open + "\n"), Chop(tags), ",\n");
      LastComma(head + (open + "\n") + Chop(tags));
      var body := Chop(tags) + (" \n" + tail);
      UnnamedAdd(open + "\n", body);
      UnnamedHead(depth, name, open + "\n" + body);
      FlatConcat(head, open + "\n", Chop(tags), " \n", tail);
    }
  }

  lemma TailConcat(a: string, tabs: string, close: string, end: string)
    ensures a + tabs + close + end == a + (tabs + (close + end))
  {
  }

  lemma FlatConcat(a: string, b: string, c: string, d: string, e: string)
    ensures a + b + c + d + e == a + (b + (c + (d + e)))
  {
  }

  lemma UnnamedTabs(depth: nat, s: string)
    requires Unnamed(s)
    ensures Unnamed(Tabs(depth) + s)
  {
    UnnamedAdd(Tabs(depth), s);
  }

  /** What printing leaves of a scalar between its head and its separator. */
  function ScalarBody(v: Value): string
    requires !v.Array? && !v.Object?
  {
    match v
    case Bool(b) => if b then "true" else "false"
    case Str(s) => "\"" + EscapeString(s) + "\""
    case Num(n) => NumberText(n, PRECISION)
    case _ => "null"
  }

  lemma ScalarTag(depth: nat, name: string, v: Value)
    requires !v.Array? && !v.Object?
    ensures Tag(depth, name, v) == Head(depth, name) + ScalarBody(v) + ",\n"
  {
    hide Head, EscapeString, NumberText;
    if v.Str? {
      FlatConcat(Head(depth, name), "\"", EscapeString(v.s), "\"", ",\n");
      assert "\"" + EscapeString(v.s) + "\"" + ",\n" == "\"" + (EscapeString(v.s) + ("\"" + ",\n"));
      Assoc(Head(depth, name), ScalarBody(v), ",\n");
    }
  }

  lemma UnnamedScalarTag(depth: nat, name: string, v: Value, end: string)
    requires !v.Array? && !v.Object?
    requires Unnamed(end) && !NextColon(end)
    ensures Entry(Tag(depth, name, v)) && Unnamed(Chop(Tag(depth, name, v)) + end)
  {
    hide Head, EscapeString, Tag, Unnamed, GeneralLiteral, Rounded;
    ScalarTag(depth, name, v);
    EntryMade(Head(depth, name) + ScalarBody(v));
    if v.Str? {
      UnnamedQuoted(v.s, end);
    } else {
      if v.Num? {
        GeneralLiteralValue(Rounded(v.n, PRECISION), PRECISION);
        LiteralBare(GeneralLiteral(Rounded(v.n, PRECISION), PRECISION));
      }
      UnnamedAdd(ScalarBody(v), end);
    }
    UnnamedHead(depth, name, ScalarBody(v) + end);
    Assoc(Head(depth, name), ScalarBody(v), end);
  }

  /** `json()` writes no empty string before a colon: a member whose name is empty loses name and colon. */
  lemma {:induction false} UnnamedTag(depth: nat, name: string, v: Value, end: string)
    requires Unnamed(end) && !NextColon(end)
    ensures Entry(Tag(depth, name, v)) && Unnamed(Chop(Tag(depth, name, v)) + end)
    decreases v, 1
  {
    hide Unnamed, Head, Container, ElementTags, MemberTags;
    match v
    case Array(vs) =>
      ClosingEnd(depth, "]", end);
      if vs == [] { EmptyLists(depth + 1, v); }
      else { UnnamedElementTags(depth + 1, vs, " \n" + (Tabs(depth) + ("]" + end))); }
      UnnamedContainer(depth, name, "[", ElementTags(depth + 1, vs), "]", end);
    case Object(m) =>
      var keys := SortedKeys(m.Keys);
      ClosingEnd(depth, "}", end);
      if keys == [] { EmptyLists(depth + 1, v); }
      else { UnnamedMemberTags(depth + 1, v, keys, " \n" + (Tabs(depth) + ("}" + end))); }
      UnnamedContainer(depth, name, "{", MemberTags(depth + 1, v, keys), "}", end);
    case _ => UnnamedScalarTag(depth, name, v, end);
  }

  lemma ClosingEnd(depth: nat, close: string, end: string)
    requires close in ["]", "}"] && Unnamed(end)
    ensures var e := " \n" + (Tabs(depth) + (close + end)); Unnamed(e) && !NextColon(e)
  {
    UnnamedAdd(close, end);
    UnnamedTabs(depth, close + end);
    UnnamedAdd(" \n", Tabs(depth) + (close + end));
    var e := " \n" + (Tabs(depth) + (close + end));
    SkipSpacesExact(" \n" + Tabs(depth), close + end);
    Assoc(" \n", Tabs(depth), close + end);
  }

  lemma {:induction false} SkipSpacesExact(blanks: string, s: string)
    requires (forall c :: c in blanks ==> IsSpace(c)) && s != "" && !IsSpace(s[0])
    ensures SkipSpaces(blanks + s) == s
  {
    if blanks == "" {
      assert blanks + s == s;
    } else {
      assert (blanks + s)[0] == blanks[0] && (blanks + s)[1..] == blanks[1..] + s;
      SkipSpacesExact(blanks[1..], s);
    }
  }

  /** Two entries in a row: the first is followed by its comma. */
  lemma UnnamedJoin(first: string, more: string, end: string)
    requires Entry(first) && Entry(more) && Unnamed(Chop(more) + end)
    requires Unnamed(Chop(first) + (",\n" + (Chop(more) + end)))
    ensures Entry(first + more) && Unnamed(Chop(first + more) + end)
  {
    EntryChop(first);
    assert Chop(first + more) == first + Chop(more);
    assert Chop(first + more) + end == Chop(first) + (",\n" + (Chop(more) + end));
    var s := first + more;
    assert s[|s| - 2..] == more[|more| - 2..];
  }

  lemma CommaEnd(s: string)
    requires Unnamed(s)
    ensures Unnamed(",\n" + s) && !NextColon(",\n" + s)
  {
    UnnamedAdd(",\n", s);
  }

  lemma {:induction false} UnnamedElementTags(depth: nat, vs: seq<Value>, end: string)
    requires vs != [] && Unnamed(end) && !NextColon(end)
    ensures Entry(ElementTags(depth, vs)) && Unnamed(Chop(ElementTags(depth, vs)) + end)
    decreases vs, 0
  {
    hide Unnamed, Tag;
    if |vs| == 1 {
      UnnamedTag(depth, "", vs[0], end);
      assert ElementTags(depth, vs[1..]) == "";
      assert ElementTags(depth, vs) == Tag(depth, "", vs[0]);
    } else {
      UnnamedElementTags(depth, vs[1..], end);
      var more := ElementTags(depth, vs[1..]);
      CommaEnd(Chop(more) + end);
      UnnamedTag(depth, "", vs[0], ",\n" + (Chop(more) + end));
      UnnamedJoin(Tag(depth, "", vs[0]), more, end);
    }
  }

  lemma {:induction false} UnnamedMemberTags(depth: nat, o: Value, keys: seq<string>, end: string)
    requires o.Object? && keys != [] && forall k :: k in keys ==> k in o.m
    requires Unnamed(end) && !NextColon(end)
    ensures Entry(MemberTags(depth, o, keys)) && Unnamed(Chop(MemberTags(depth, o, keys)) + end)
    decreases o, 0, |keys|
  {
    hide Unnamed, Tag;
    var k := keys[0];
    assert k in o.m;
    if |keys| == 1 {
      UnnamedTag(depth, k, o.m[k], end);
      assert MemberTags(depth, o, keys[1..]) == "";
      assert MemberTags(depth, o, keys) == Tag(depth, k, o.m[k]);
    } else {
      UnnamedMemberTags(depth, o, keys[1..], end);
      var more := MemberTags(depth, o, keys[1..]);
      CommaEnd(Chop(more) + end);
      UnnamedTag(depth, k, o.m[k], ",\n" + (Chop(more) + end));
      UnnamedJoin(Tag(depth, k, o.m[k]), more, end);
    }
  }

  lemma UnnamedTop(t: string)
    requires Entry(t) && Unnamed(Chop(t) + " \n")
    ensures Unnamed(RemoveLastComma(t))
  {
    hide Unnamed, RemoveLastComma;
    EntryChop(t);
    if |t| == 2 {
      ShortText(t);
      UnnamedComma();
      assert t == ",\n";
    } else {
      LastComma(Chop(t));
    }
  }

  lemma UnnamedComma()
    ensures Unnamed(",\n")
  {
    UnnamedAdd(",\n", "");
    assert ",\n" + "" == ",\n";
  }

  lemma ShortText(s: string)
    requires |s| <= 2
    ensures RemoveLastComma(s) == s
  {
  }

  lemma UnnamedJson(v: Value)
    ensures Unnamed(Json(v))
  {
    hide Unnamed, RemoveLastComma, Chop, Entry, NextColon;
    BlankEnd();
    UnnamedTag(0, "", v, " \n");
    UnnamedTop(Tag(0, "", v));
  }

  lemma BlankEnd()
    ensures Unnamed(" \n") && !NextColon(" \n")
  {
    UnnamedAdd(" \n", "");
    assert " \n" + "" == " \n" && " \n"[1..] == "\n" && "\n"[1..] == "";
  }

  // ---------------------------------------------------------------- documents

  /** `validate` and `reformat` first skip everything up to a character above the blank. */
  function Trim(s: string): string {
    if s != "" && s[0] as int <= 32 then Trim(s[1..]) else s
  }

  /** The top level: an object or an array, told apart by its first character. */
  function ParseDocument(s: string): Parsed<Value> {
    var t := Trim(s);
    if NextIs('{', t) then var o := ParseObject(t); Parsed(o.ok, if o.ok then Object(o.v) else Invalid, o.rest)
    else if NextIs('[', t) then var a := ParseArray(t); Parsed(a.ok, if a.ok then Array(a.v) else Invalid, a.rest)
    else Parsed(false, Invalid, t)
  }

  ghost function Reformat(s: string): string {
    var d := ParseDocument(s);
    if d.ok then Json(d.v) else ""
  }

  predicate IsContainer(v: Value) { v.Array? || v.Object? }

  lemma DocumentText(v: Value)
    requires NoEmptyKeys(v) && IsContainer(v)
    ensures ParseDocument(Json(v)) == Parsed(true, Kept(v), " \n")
  {
    hide TreeText, Kept, ParseArray, ParseObject;
    JsonIsTreeText(v);
    TreeMeaning(0, v);
    var t := TreeOf(0, v);
    DocumentStart(v);
    assert GapText([]) + (TreeText(t) + " \n") == Json(v);
    if v.Array? { ParseArrayTree([], t, " \n"); } else { ParseObjectTree([], t, " \n"); }
  }

  lemma DocumentStart(v: Value)
    requires IsContainer(v)
    ensures TreeText(TreeOf(0, v)) != "" && TreeText(TreeOf(0, v))[0] == if v.Array? then '[' else '{'
    ensures TreeOf(0, v).TArray? == v.Array? && TreeOf(0, v).TObject? == v.Object?
  {
  }

  lemma DocumentIsSet(s: string)
    ensures ParseDocument(s).ok ==> NeverInvalid(ParseDocument(s).v) && IsContainer(ParseDocument(s).v)
  {
    hide ParseArray, ParseObject;
    var t := Trim(s);
    if NextIs('{', t) { ParsedObjectIsSet(t); }
    else if NextIs('[', t) { ParsedArrayIsSet(t); }
  }

  lemma {:induction false} UnnamedTrim(s: string)
    requires Unnamed(s)
    ensures Trim(s) == "" || (Trim(s)[0] as int > 32 && Unnamed(Trim(s)))
  {
    if s != "" && s[0] as int <= 32 {
      assert Unnamed(s[1..]);
      UnnamedTrim(s[1..]);
    }
  }

  lemma DocumentUnnamed(s: string)
    requires Unnamed(s)
    ensures ParseDocument(s).ok ==> NoEmptyKeys(ParseDocument(s).v)
  {
    hide ParseArray, ParseObject, Unnamed;
    UnnamedTrim(s);
    var t := Trim(s);
    if NextIs('{', t) { UnnamedObject(t); }
    else if NextIs('[', t) { UnnamedArray(t); }
  }

  lemma {:induction false} IntactIsSet(v: Value, precision: nat)
    ensures Intact(v, precision) ==> NeverInvalid(v)
  {
    match v
    case Array(vs) => forall e | e in vs ensures Intact(e, precision) ==> NeverInvalid(e) { IntactIsSet(e, precision); }
    case Object(m) => forall k | k in m ensures Intact(m[k], precision) ==> NeverInvalid(m[k]) { IntactIsSet(m[k], precision); }
    case _ =>
  }

  /** Parsing what `json()` wrote gives the value back exactly when no member below it has an empty name,
      every part of it was set, and no number needs more than nineteen digits. */
  lemma RoundTripExactly(v: Value)
    requires IsContainer(v)
    ensures (ParseDocument(Json(v)).ok && ParseDocument(Json(v)).v == v) <==> NoEmptyKeys(v) && Intact(v, PRECISION)
  {
    hide Json, ParseDocument, Kept, Unnamed;
    UnnamedJson(v);
    DocumentUnnamed(Json(v));
    KeptExactly(v);
    if NoEmptyKeys(v) { DocumentText(v); }
  }

  /** An object whose only member has an empty name does not come back. */
  lemma EmptyNameIsLost()
    ensures var v := Object(map["" := Null]); !(ParseDocument(Json(v)).ok && ParseDocument(Json(v)).v == v)
  {
    hide ParseDocument, Json;
    var v := Object(map["" := Null]);
    assert "" in v.m;
    RoundTripExactly(v);
  }

  /** Printing forgets nothing that printing again would show. */
  lemma {:induction false} TagOfKept(depth: nat, name: string, v: Value)
    ensures Tag(depth, name, Kept(v)) == Tag(depth, name, v)
    decreases v, 1
  {
    hide Head, RemoveLastComma, Rounded, GeneralLiteral;
    match v
    case Num(n) => RoundedExact(n, PRECISION);
    case Array(vs) => ElementTagsOfKept(depth + 1, vs);
    case Object(m) =>
      assert Kept(v).m.Keys == m.Keys;
      MemberTagsOfKept(depth + 1, v, SortedKeys(m.Keys));
    case _ =>
  }

  lemma {:induction false} ElementTagsOfKept(depth: nat, vs: seq<Value>)
    ensures ElementTags(depth, Kept(Array(vs)).vs) == ElementTags(depth, vs)
    decreases vs, 0
  {
    if vs != [] {
      TagOfKept(depth, "", vs[0]);
      ElementTagsOfKept(depth, vs[1..]);
      assert Kept(Array(vs)).vs[1..] == Kept(Array(vs[1..])).vs;
    }
  }

  lemma {:induction false} MemberTagsOfKept(depth: nat, o: Value, keys: seq<string>)
    requires o.Object? && forall k :: k in keys ==> k in o.m
    ensures forall k :: k in keys ==> k in Kept(o).m
    ensures MemberTags(depth, Kept(o), keys) == MemberTags(depth, o, keys)
    decreases o, 0, |keys|
  {
    if keys != [] {
      assert keys[0] in o.m;
      TagOfKept(depth, keys[0], o.m[keys[0]]);
      MemberTagsOfKept(depth, o, keys[1..]);
    }
  }

  /** Reformatting twice is reformatting once, unless a member with an empty name lost its name. */
  lemma ReformatIdempotent(s: string)
    requires ParseDocument(s).ok ==> NoEmptyKeys(ParseDocument(s).v)
    ensures Reformat(Reformat(s)) == Reformat(s)
  {
    hide ParseDocument, Json, Kept, NoEmptyKeys;
    var d := ParseDocument(s);
    if d.ok {
      DocumentIsSet(s);
      DocumentText(d.v);
      TagOfKept(0, "", d.v);
      assert Json(Kept(d.v)) == Json(d.v) by { JsonOfKept(d.v); }
    } else {
      EmptyDocument();
    }
  }

  lemma JsonOfKept(v: Value)
    ensures Json(Kept(v)) == Json(v)
  {
    TagOfKept(0, "", v);
  }

  lemma EmptyDocument()
    ensures !ParseDocument("").ok
  {
  }
}
