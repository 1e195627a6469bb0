/** The printers' output spelled out for one shape of document with any contents. */
module JsonSample {
  import opened Text
  import opened JsonNumber
  import opened JsonParser
  import opened JsonPrinter
  import opened JsonRoundTrip
  import opened JsonFaithful
  import opened JsonOstream
  import opened JsonLayout
  import opened JsonTokens

  function Sample(k: string, s: string): Value { Object(map[k := Array([Str(s), Bool(true)])]) }

  lemma TwoTabs()
    ensures Head(2, "") == Tabs(2) == "\t\t" && Head(0, "") == Tabs(0) == "" && Tabs(1) == "\t"
  {
  }

  lemma SampleLeaves(s: string)
    ensures Tag(2, "", Str(s)) == "\t\t\"" + EscapeString(s) + "\",\n"
    ensures Tag(2, "", Bool(true)) == "\t\ttrue,\n"
  {
    TwoTabs();
    hide Head, Tabs, EscapeString;
    var e := EscapeString(s);
    assert "\t\t" + "\"" + e + "\"" + ",\n" == "\t\t\"" + e + "\",\n";
  }

  lemma TwoElements(depth: nat, a: Value, b: Value)
    ensures ElementTags(depth, [a, b]) == Tag(depth, "", a) + Tag(depth, "", b)
  {
    hide Tag;
    assert [a, b][1..] == [b] && [b][1..] == [];
    assert ElementTags(depth, [b]) == Tag(depth, "", b) + "";
  }

  lemma SampleElements(s: string)
    ensures ElementTags(2, [Str(s), Bool(true)]) == "\t\t\"" + EscapeString(s) + "\",\n\t\ttrue,\n"
  {
    hide Tag, ElementTags, EscapeString;
    TwoElements(2, Str(s), Bool(true));
    SampleLeaves(s);
  }

  lemma SampleArray(k: string, s: string)
    requires k != ""
    ensures Tag(1, k, Array([Str(s), Bool(true)]))
         == "\t\"" + EscapeString(k) + "\": [\n\t\t\"" + EscapeString(s) + "\",\n\t\ttrue \n\t],\n"
  {
    TwoTabs();
    hide ElementTags, EscapeString, RemoveLastComma, Tabs;
    SampleElements(s);
    var head := "\t\"" + EscapeString(k) + "\": ";
    assert Head(1, k) == head;
    hide Head;
    var x := head + "[\n\t\t\"" + EscapeString(s) + "\",\n\t\ttrue";
    LastComma(x);
    assert head + ("[" + "\n") + ("\t\t\"" + EscapeString(s) + "\",\n\t\ttrue,\n") == x + ",\n";
  }

  lemma OneMember(depth: nat, o: Value, k: string)
    requires o.Object? && k in o.m
    ensures MemberTags(depth, o, [k]) == Tag(depth, k, o.m[k])
  {
    hide Tag;
    assert [k][1..] == [];
    assert MemberTags(depth, o, []) == "";
  }

  lemma ObjectLines(o: Value, keys: seq<string>, y: string)
    requires o.Object? && SortedKeys(o.m.Keys) == keys && (forall k :: k in keys ==> k in o.m) && MemberTags(1, o, keys) == y + ",\n"
    ensures Json(o) == "{\n" + y + " \n} \n"
  {
    TwoTabs();
    hide RemoveLastComma, MemberTags, Head, Tabs, SortedKeys;
    ObjectConcat(y);
    LastComma("{\n" + y);
    LastComma("{\n" + y + " \n}");
  }

  lemma ObjectConcat(y: string)
    ensures "" + ("{" + "\n") + (y + ",\n") == ("{\n" + y) + ",\n"
    ensures ("{\n" + y) + " \n" + "" + "}" + ",\n" == ("{\n" + y + " \n}") + ",\n"
    ensures ("{\n" + y + " \n}") + " \n" == "{\n" + y + " \n} \n"
  {
  }

  /** `json()`: one entry a line, indented by tabs; a colon and a blank behind a name; a comma behind every entry but the
      last, which has a blank. */
  lemma JsonSampleText(k: string, s: string)
    requires k != ""
    ensures Json(Sample(k, s))
         == "{\n" + ("\t\"" + EscapeString(k) + "\": [\n\t\t\"" + EscapeString(s) + "\",\n\t\ttrue \n\t]") + " \n} \n"
  {
    hide Tag, Json, EscapeString;
    SampleArray(k, s);
    var o := Sample(k, s);
    var y := "\t\"" + EscapeString(k) + "\": [\n\t\t\"" + EscapeString(s) + "\",\n\t\ttrue \n\t]";
    assert o.m.Keys == {k} && o.m[k] == Array([Str(s), Bool(true)]);
    assert "\t\"" + EscapeString(k) + "\": [\n\t\t\"" + EscapeString(s) + "\",\n\t\ttrue \n\t],\n" == y + ",\n";
    OneKey(k);
    OneMember(1, o, k);
    ObjectLines(o, [k], y);
  }

  // ---------------------------------------------------------------- one line

  lemma StreamArray(s: string)
    ensures StreamText(Array([Str(s), Bool(true)])) == "[\"" + StreamString(s) + "\", true]"
  {
    hide StreamString;
    var a := [Str(s), Bool(true)];
    assert a[1..] == [Bool(true)];
    var t := "\"" + StreamString(s) + "\"";
    assert StreamElements([Bool(true)]) == "true" + "" == "true";
    assert StreamElements(a) == t + (", " + "true");
    assert "[" + (t + (", " + "true")) + "]" == "[\"" + StreamString(s) + "\", true]";
  }

  lemma StreamOne(o: Value, k: string)
    requires o.Object? && o.m.Keys == {k}
    ensures StreamText(o) == "{\"" + StreamString(k) + "\": " + StreamText(o.m[k]) + "}"
  {
    OneKey(k);
    hide StreamString, SortedKeys;
    var t := StreamText(o.m[k]);
    assert StreamMembers(o, [k]) == "\"" + StreamString(k) + "\"" + ": " + t + "";
    assert "{" + ("\"" + StreamString(k) + "\"" + ": " + t + "") + "}" == "{\"" + StreamString(k) + "\": " + t + "}";
  }

  /** `operator<<`: all on one line, a blank behind a colon and behind a comma. */
  lemma StreamSampleText(k: string, s: string)
    ensures StreamText(Sample(k, s)) == "{\"" + StreamString(k) + "\": " + ("[\"" + StreamString(s) + "\", true]") + "}"
  {
    hide StreamString, StreamText;
    var o := Sample(k, s);
    assert o.m.Keys == {k} && o.m[k] == Array([Str(s), Bool(true)]);
    StreamArray(s);
    StreamOne(o, k);
  }

  /** A byte of 128 or more is written as a negative number in eight hexadecimal digits, any other as in `json()`. */
  lemma StreamCharExactly(c: char)
    requires c as int < 256
    ensures c as int >= 128 ==>
              StreamChar(c) == "\\uffffff" + ["0123456789abcdef"[c as int / 16], "0123456789abcdef"[c as int % 16]]
    ensures c as int < 128 ==> StreamChar(c) == EscapeChar(c)
  {
    HexByteExactly(c as int);
  }

  // ---------------------------------------------------------------- numbers

  /** A number comes back from `json()` exactly when it has at most nineteen digits, and from `operator<<` exactly when it
      has at most six. */
  lemma DigitsKept(n: Number)
    ensures (ParseDocument(Json(Array([Num(n)]))).ok && ParseDocument(Json(Array([Num(n)]))).v == Array([Num(n)])) <==> Digits(n) <= 19
    ensures (ParseValue(StreamText(Num(n))).ok && ParseValue(StreamText(Num(n))).v == Num(n)) <==> Digits(n) <= 6
  {
    hide ParseDocument, Json, ParseValue, StreamText, Digits;
    var v := Array([Num(n)]);
    assert Num(n) in v.vs;
    RoundTripExactly(v);
    StreamRoundTripExactly(Num(n));
  }

  /** A whole number is written as its plain digits: in `json()` below 10^19, by `operator<<` below 10^6. */
  lemma IntegersPlain(i: int)
    ensures Abs(i) < Pow10(19) ==>
              Json(Array([Num(Canon(i, 0))])) == "[\n\t" + (if i < 0 then "-" else "") + NatText(Abs(i)) + " \n] \n"
    ensures Abs(i) < Pow10(6) ==> StreamText(Num(Canon(i, 0))) == (if i < 0 then "-" else "") + NatText(Abs(i))
  {
    hide NatText, Canon, NumberText, RemoveLastComma, Pow10;
    var n := Canon(i, 0);
    if Abs(i) < Pow10(6) { IntegerText(i, 6); }
    if Abs(i) < Pow10(19) {
      IntegerText(i, 19);
      var t := NumberText(n, 19);
      NumberLines(n);
      assert "[\n\t" + t + " \n] \n" == "[\n\t" + (if i < 0 then "-" else "") + NatText(Abs(i)) + " \n] \n";
    }
  }

  lemma NumberLines(n: Number)
    ensures Json(Array([Num(n)])) == "[\n\t" + NumberText(n, 19) + " \n] \n"
  {
    hide NumberText, RemoveLastComma;
    TwoTabs();
    var t := NumberText(n, 19);
    assert [Num(n)][1..] == [];
    assert Head(1, "") == "\t";
    assert Tag(1, "", Num(n)) == "\t" + t + ",\n";
    assert ElementTags(1, [Num(n)]) == "\t" + t + ",\n" by { assert ElementTags(1, []) == ""; }
    LastComma("[\n\t" + t);
    assert "" + ("[" + "\n") + ("\t" + t + ",\n") == "[\n\t" + t + ",\n";
    assert Tag(0, "", Array([Num(n)])) == "[\n\t" + t + " \n" + "]" + ",\n";
    LastComma("[\n\t" + t + " \n" + "]");
  }

  // ---------------------------------------------------------------- the order of members

  lemma TwoMembers(depth: nat, o: Value, j: string, k: string)
    requires o.Object? && j in o.m && k in o.m
    ensures MemberTags(depth, o, [j, k]) == Tag(depth, j, o.m[j]) + Tag(depth, k, o.m[k])
  {
    hide Tag;
    assert [j, k][1..] == [k];
    OneMember(depth, o, k);
  }

  function Pair(j: string, k: string): Value { Object(map[j := Null, k := Bool(true)]) }

  lemma PairLines(j: string, k: string)
    requires j != "" && k != ""
    ensures Tag(1, j, Null) == "\t\"" + EscapeString(j) + "\": null,\n"
    ensures Tag(1, k, Bool(true)) == "\t\"" + EscapeString(k) + "\": true,\n"
  {
    TwoTabs();
    hide EscapeString, Tabs;
    var a, b := EscapeString(j), EscapeString(k);
    assert Head(1, j) == "\t\"" + a + "\": " && Head(1, k) == "\t\"" + b + "\": ";
    hide Head;
    assert "\t\"" + a + "\": " + "null" + ",\n" == "\t\"" + a + "\": null,\n";
    assert "\t\"" + b + "\": " + "true" + ",\n" == "\t\"" + b + "\": true,\n";
  }

  /** `json()` writes the lesser name first. */
  lemma JsonPairText(j: string, k: string)
    requires Before(j, k) && j != "" && k != ""
    ensures Json(Pair(j, k)) == "{\n" + ("\t\"" + EscapeString(j) + "\": null,\n" + ("\t\"" + EscapeString(k) + "\": true")) + " \n} \n"
  {
    hide EscapeString, RemoveLastComma, MemberTags, Tag, Json;
    PairKeys(j, k);
    var o := Pair(j, k);
    TwoMembers(1, o, j, k);
    PairLines(j, k);
    var b := "\t\"" + EscapeString(k) + "\": true";
    assert "\t\"" + EscapeString(k) + "\": true,\n" == b + ",\n";
    Assoc("\t\"" + EscapeString(j) + "\": null,\n", b, ",\n");
    ObjectLines(o, [j, k], "\t\"" + EscapeString(j) + "\": null,\n" + b);
  }

  lemma PairKeys(j: string, k: string)
    requires Before(j, k)
    ensures var o := Pair(j, k); SortedKeys(o.m.Keys) == [j, k] && j in o.m && k in o.m && o.m[j] == Null && o.m[k] == Bool(true)
  {
    BeforeStrict(j, k);
    TwoKeys(j, k);
    assert Pair(j, k).m.Keys == {j, k};
  }

  /** So does `operator<<`. */
  lemma StreamPairText(j: string, k: string)
    requires Before(j, k)
    ensures StreamText(Pair(j, k)) == "{" + ("\"" + StreamString(j) + "\": null, " + ("\"" + StreamString(k) + "\": true")) + "}"
  {
    hide StreamString;
    PairKeys(j, k);
    hide SortedKeys, Before, Pair;
    StreamLast(Pair(j, k), k);
    StreamFirst(Pair(j, k), j, k);
  }

  lemma StreamLast(o: Value, k: string)
    requires o.Object? && k in o.m && o.m[k] == Bool(true)
    ensures StreamMembers(o, [k]) == "\"" + StreamString(k) + "\": true"
  {
    hide StreamString;
    assert "\"" + StreamString(k) + "\"" + ": " + "true" + "" == "\"" + StreamString(k) + "\": true";
  }

  lemma StreamFirst(o: Value, j: string, k: string)
    requires o.Object? && k in o.m && j in o.m && o.m[j] == Null
    ensures StreamMembers(o, [j, k]) == "\"" + StreamString(j) + "\": null, " + StreamMembers(o, [k])
  {
    hide StreamString;
    assert [j, k][1..] == [k];
    PairConcat(StreamString(j), StreamMembers(o, [k]));
  }

  lemma PairConcat(a: string, more: string)
    ensures "\"" + a + "\"" + ": " + "null" + (", " + more) == "\"" + a + "\": null, " + more
  {
  }
}
