/** The response printer, and what the request parser's header loop makes of its output. */
module HttpResponses {
  import opened Options
  import opened Text
  import opened HttpSpec
  import Buffers

  const CRLF := "\r\n"

  /** `printf("%d")`. */
  function IntText(n: int): string { if n < 0 then "-" + NatText(-n) else NatText(n) }

  function StatusLine(code: int, message: string): string { "HTTP/1.1 " + IntText(code) + " " + message + CRLF }

  datatype Field = Field(name: string, value: string)

  /** What is written before the caller's own fields. */
  function Generated(close: bool, body: string): seq<Field> {
    if close then [Field("Connection", "close")]
    else [Field("Content-Length", NatText(|body|)), Field("Connection", "Keep-Alive")]
  }

  function FieldLine(f: Field): string { f.name + ": " + f.value }

  function FieldText(f: Field): string { f.name + ": " + f.value + CRLF }

  function FieldsText(fs: seq<Field>): string {
    if fs == [] then "" else FieldText(fs[0]) + FieldsText(fs[1..])
  }

  /** The caller's fields in map order. */
  ghost function FieldsOf(headers: map<string, string>, keys: seq<string>): seq<Field>
    requires forall k :: k in keys ==> k in headers
  {
    if keys == [] then []
    else
      assert keys[0] in headers;
      [Field(keys[0], headers[keys[0]])] + FieldsOf(headers, keys[1..])
  }

  /** Everything after the status line. */
  ghost function HeaderBlock(close: bool, headers: map<string, string>, body: string): string {
    FieldsText(Generated(close, body)) + FieldsText(FieldsOf(headers, SortedKeys(headers.Keys))) + CRLF + body
  }

  class HttpResponse {
    var closeConnection: bool
    var statusCode: int
    var statusMessage: string
    var headers: map<string, string>
    var body: string

    constructor (close: bool)
      ensures closeConnection == close && statusCode == 0 && statusMessage == "" && headers == map[] && body == ""
    {
      closeConnection, statusCode, statusMessage, headers, body := close, 0, "", map[], "";
    }

    method AppendToBuffer(output: Buffers.Buffer)
      requires output.Valid()
      modifies output, output.buffer
      ensures output.Valid() && (output.buffer == old(output.buffer) || fresh(output.buffer))
      ensures output.Content() == old(output.Content()) + StatusLine(statusCode, statusMessage)
                                  + HeaderBlock(closeConnection, headers, body)
    {
      hide NatText, FieldsText, SortedKeys, StatusLine, Generated, FieldsOf;
      AppendStatusLine(output);
      ghost var start := output.Content();
      AppendGenerated(output);
      AppendFields(output);
      output.Append(CRLF);
      output.Append(body);
      BlockConcat(start, FieldsText(Generated(closeConnection, body)), FieldsText(FieldsOf(headers, SortedKeys(headers.Keys))), body);
    }

    method AppendStatusLine(output: Buffers.Buffer)
      requires output.Valid()
      modifies output, output.buffer
      ensures output.Valid() && (output.buffer == old(output.buffer) || fresh(output.buffer))
      ensures output.Content() == old(output.Content()) + StatusLine(statusCode, statusMessage)
    {
      hide IntText;
      output.Append("HTTP/1.1 " + IntText(statusCode) + " ");
      output.Append(statusMessage);
      output.Append(CRLF);
      StatusConcat(old(output.Content()), "HTTP/1.1 " + IntText(statusCode) + " ", statusMessage);
    }

    method AppendGenerated(output: Buffers.Buffer)
      requires output.Valid()
      modifies output, output.buffer
      ensures output.Valid() && (output.buffer == old(output.buffer) || fresh(output.buffer))
      ensures output.Content() == old(output.Content()) + FieldsText(Generated(closeConnection, body))
    {
      hide NatText, FieldsText, Generated;
      GeneratedText(closeConnection, body);
      if closeConnection {
        output.Append("Connection: close\r\n");
      } else {
        output.Append("Content-Length: " + NatText(|body|) + "\r\n");
        output.Append("Connection: Keep-Alive\r\n");
        Assoc(old(output.Content()), "Content-Length: " + NatText(|body|) + "\r\n", "Connection: Keep-Alive\r\n");
      }
    }

    method AppendField(output: Buffers.Buffer, k: string)
      requires output.Valid() && k in headers
      modifies output, output.buffer
      ensures output.Valid() && (output.buffer == old(output.buffer) || fresh(output.buffer))
      ensures output.Content() == old(output.Content()) + k + ": " + headers[k] + "\r\n"
    {
      output.Append(k);
      output.Append(": ");
      output.Append(headers[k]);
      output.Append("\r\n");
    }

    /** The loop over `headers_`. */
    method AppendFields(output: Buffers.Buffer)
      requires output.Valid()
      modifies output, output.buffer
      ensures output.Valid() && (output.buffer == old(output.buffer) || fresh(output.buffer))
      ensures output.Content() == old(output.Content()) + FieldsText(FieldsOf(headers, SortedKeys(headers.Keys)))
    {
      hide FieldsText, SortedKeys, FieldsOf;
      var keys := headers.Keys;
      ghost var all := old(output.Content()) + FieldsText(FieldsOf(headers, SortedKeys(headers.Keys)));
      while keys != {}
        invariant output.Valid() && (output.buffer == old(output.buffer) || fresh(output.buffer))
        invariant keys <= headers.Keys
        invariant output.Content() + FieldsText(FieldsOf(headers, SortedKeys(keys))) == all
        decreases |keys|
      {
        FirstExists(keys);
        var k :| k in keys && IsFirst(k, keys);
        ghost var before := output.Content();
        SortedKeysStep(keys, k);
        AppendField(output, k);
        FieldStep(before, headers, k, SortedKeys(keys - {k}));
        keys := keys - {k};
      }
      NoFields(headers);
    }
  }

  lemma StatusConcat(a: string, b: string, c: string)
    ensures a + b + c + CRLF == a + (b + c + CRLF)
  {
  }

  lemma BlockConcat(start: string, a: string, b: string, body: string)
    ensures start + a + b + CRLF + body == start + (a + b + CRLF + body)
  {
  }

  lemma NoFields(headers: map<string, string>)
    ensures SortedKeys({}) == [] && FieldsText(FieldsOf(headers, [])) == ""
  {
  }

  lemma FieldStep(before: string, headers: map<string, string>, k: string, rest: seq<string>)
    requires k in headers && forall j :: j in rest ==> j in headers
    ensures before + FieldsText(FieldsOf(headers, [k] + rest))
         == before + k + ": " + headers[k] + "\r\n" + FieldsText(FieldsOf(headers, rest))
  {
    assert ([k] + rest)[1..] == rest;
    var fs := FieldsOf(headers, [k] + rest);
    assert fs[0] == Field(k, headers[k]) && fs[1..] == FieldsOf(headers, rest);
    var more := FieldsText(FieldsOf(headers, rest));
    Flat(before, k, headers[k], more);
  }

  lemma Flat(a: string, k: string, v: string, more: string)
    ensures a + (k + ": " + v + CRLF + more) == a + k + ": " + v + "\r\n" + more
  {
  }

  lemma GeneratedText(close: bool, body: string)
    ensures FieldsText(Generated(close, body)) ==
            if close then "Connection: close\r\n"
            else "Content-Length: " + NatText(|body|) + "\r\n" + "Connection: Keep-Alive\r\n"
  {
    hide NatText, FieldText, FieldsText;
    LiteralFields(NatText(|body|));
    if close {
      OneField(Field("Connection", "close"));
    } else {
      var f, g := Field("Content-Length", NatText(|body|)), Field("Connection", "Keep-Alive");
      TwoFields(f, g);
    }
  }

  lemma LiteralFields(n: string)
    ensures FieldText(Field("Connection", "close")) == "Connection: close\r\n"
    ensures FieldText(Field("Connection", "Keep-Alive")) == "Connection: Keep-Alive\r\n"
    ensures FieldText(Field("Content-Length", n)) == "Content-Length: " + n + "\r\n"
  {
  }

  lemma OneField(f: Field)
    ensures FieldsText([f]) == FieldText(f)
  {
    hide FieldText;
    assert [f][1..] == [] && FieldText(f) + "" == FieldText(f);
  }

  lemma TwoFields(f: Field, g: Field)
    ensures FieldsText([f, g]) == FieldText(f) + FieldText(g)
    ensures forall h :: Entered([f, g], h) == h[f.name := f.value][g.name := g.value]
    ensures forall h :: Entered([f], h) == h[f.name := f.value]
  {
    hide FieldText;
    OneField(g);
    assert [f, g][1..] == [g] && [f][1..] == [] && [g][1..] == [];
    forall h ensures Entered([f, g], h) == h[f.name := f.value][g.name := g.value] {
      assert Entered([f, g], h) == Entered([g], h[f.name := f.value]);
    }
  }

  // ---------------------------------------------------------------- reading it back

  predicate NoCrlf(s: string) { forall i :: 0 <= i && i + 1 < |s| ==> !Buffers.IsCrlf(s, i) }

  predicate NoColon(s: string) { forall c :: c in s ==> c != ':' }

  /** No blank at either end. */
  predicate Trimmed(s: string) { s != "" ==> !IsSpace(s[0]) && !IsSpace(s[|s| - 1]) }

  predicate Readable(f: Field) { NoColon(f.name) && NoCrlf(f.name) && Trimmed(f.value) && NoCrlf(f.value) }

  function Entered(fs: seq<Field>, h: map<string, string>): map<string, string> {
    if fs == [] then h else Entered(fs[1..], h[fs[0].name := fs[0].value])
  }

  lemma LineEnd(line: string, more: string)
    requires NoCrlf(line) && (line != "" ==> line[|line| - 1] != '\r')
    ensures Buffers.FindCrlf(line + CRLF + more) == Some(|line|)
  {
    var s := line + CRLF + more;
    assert Buffers.IsCrlf(s, |line|);
    forall i | 0 <= i < |line| ensures !Buffers.IsCrlf(s, i) {
      if i + 1 < |line| { assert Buffers.IsCrlf(s, i) == Buffers.IsCrlf(line, i); }
    }
    Buffers.FirstCrlf(s, Some(|line|));
  }

  lemma FieldLineEnd(f: Field)
    requires Readable(f)
    ensures var line := FieldLine(f); NoCrlf(line) && line != "" && line[|line| - 1] != '\r'
  {
    var line := FieldLine(f);
    forall i | 0 <= i && i + 1 < |line| ensures !Buffers.IsCrlf(line, i) {
      var n := |f.name|;
      if i + 1 < n { assert Buffers.IsCrlf(line, i) == Buffers.IsCrlf(f.name, i); }
      else if i >= n + 2 {
        assert line[i] == f.value[i - n - 2] && line[i + 1] == f.value[i + 1 - n - 2];
        assert Buffers.IsCrlf(line, i) == Buffers.IsCrlf(f.value, i - n - 2);
      } else {
        assert line[n] == ':' && line[n + 1] == ' ';
      }
    }
    assert line[|line| - 1] == if f.value == "" then ' ' else f.value[|f.value| - 1];
  }

  lemma FieldColon(f: Field)
    requires NoColon(f.name)
    ensures IndexOf(':', FieldLine(f)) == |f.name|
  {
    var line := FieldLine(f);
    assert line[|f.name|] == ':';
    forall i | 0 <= i < |f.name| ensures line[i] != ':' { assert line[i] == f.name[i] && f.name[i] in f.name; }
  }

  lemma FieldValue(f: Field)
    requires Trimmed(f.value)
    ensures TrimRight(TrimLeft(FieldLine(f)[|f.name| + 1..])) == f.value
  {
    assert FieldLine(f)[|f.name| + 1..] == " " + f.value;
    assert (" " + f.value)[1..] == f.value;
    assert TrimLeft(" " + f.value) == TrimLeft(f.value) == f.value;
  }

  /** One readable field enters the header map under its name with its value. */
  lemma HeaderRead(c: Context, f: Field)
    requires Readable(f) && c.state.ExpectHeaders?
    ensures HeaderStep(c, FieldLine(f)) == c.(request := c.request.(headers := c.request.headers[f.name := f.value]))
  {
    hide TrimLeft, TrimRight, IndexOf;
    FieldColon(f);
    FieldValue(f);
    assert FieldLine(f)[..|f.name|] == f.name;
  }

  lemma {:induction false} FieldsRead(c: Context, fs: seq<Field>, more: string)
    requires c.state.ExpectHeaders? && forall f :: f in fs ==> Readable(f)
    ensures Parse(c, FieldsText(fs) + more)
         == Parse(c.(request := c.request.(headers := Entered(fs, c.request.headers))), more)
    decreases |fs|
  {
    hide Buffers.FindCrlf, FieldLine, HeaderStep, Readable;
    if fs == [] {
      assert FieldsText(fs) + more == more;
    } else {
      var f := fs[0];
      var rest := FieldsText(fs[1..]) + more;
      FieldTextIsLine(f);
      FieldLineEnd(f);
      LineEnd(FieldLine(f), rest);
      HeaderRead(c, f);
      var s := FieldLine(f) + CRLF + rest;
      assert FieldsText(fs) + more == s;
      assert s[..|FieldLine(f)|] == FieldLine(f) && s[|FieldLine(f)| + 2..] == rest;
      FieldsRead(HeaderStep(c, FieldLine(f)), fs[1..], more);
    }
  }

  lemma FieldTextIsLine(f: Field)
    ensures FieldText(f) == FieldLine(f) + CRLF
  {
  }

  /** The empty line ends the headers. */
  lemma BlockEnd(c: Context, body: string)
    requires c.state.ExpectHeaders?
    ensures Parse(c, CRLF + body) == BodyStep(c.(state := ExpectBody), body)
  {
    LineEnd("", body);
    var s := CRLF + body;
    assert "" + CRLF + body == s && s[..0] == "" && s[2..] == body;
  }

  lemma {:induction false} FieldsOfReadable(headers: map<string, string>, keys: seq<string>)
    requires forall k :: k in keys ==> k in headers && Readable(Field(k, headers[k]))
    ensures forall f :: f in FieldsOf(headers, keys) ==> Readable(f)
  {
    if keys != [] {
      assert keys[0] in keys;
      FieldsOfReadable(headers, keys[1..]);
    }
  }

  ghost function Sub(headers: map<string, string>, keys: seq<string>): map<string, string>
    requires forall k :: k in keys ==> k in headers
  {
    map k | k in keys :: headers[k]
  }

  lemma {:induction false} EnteredFields(headers: map<string, string>, keys: seq<string>, h: map<string, string>)
    requires forall k :: k in keys ==> k in headers
    ensures Entered(FieldsOf(headers, keys), h) == h + Sub(headers, keys)
  {
    if keys == [] {
      assert Sub(headers, keys) == map[] && h + map[] == h;
    } else {
      var k := keys[0];
      assert k in headers;
      var fs := FieldsOf(headers, keys);
      assert fs[0] == Field(k, headers[k]) && fs[1..] == FieldsOf(headers, keys[1..]);
      EnteredFields(headers, keys[1..], h[k := headers[k]]);
      SubStep(headers, keys, h);
    }
  }

  lemma SubStep(headers: map<string, string>, keys: seq<string>, h: map<string, string>)
    requires keys != [] && forall k :: k in keys ==> k in headers
    ensures h[keys[0] := headers[keys[0]]] + Sub(headers, keys[1..]) == h + Sub(headers, keys)
  {
    assert forall j :: j in keys <==> j == keys[0] || j in keys[1..];
  }

  lemma DigitsPlain(s: string)
    requires AllDigits(s) && s != ""
    ensures Trimmed(s) && NoCrlf(s)
  {
    assert s[0] in s && s[|s| - 1] in s;
    forall i | 0 <= i && i + 1 < |s| ensures !Buffers.IsCrlf(s, i) { assert s[i] in s; }
  }

  lemma GeneratedReadable(close: bool, body: string)
    ensures forall f :: f in Generated(close, body) ==> Readable(f)
  {
    hide NatText, Readable;
    NamedReadable(NatText(|body|));
  }

  lemma NamedReadable(n: string)
    requires AllDigits(n) && n != ""
    ensures Readable(Field("Connection", "close")) && Readable(Field("Connection", "Keep-Alive"))
    ensures Readable(Field("Content-Length", n))
  {
    DigitsPlain(n);
    hide IsSpace;
    Letters("Connection");
    Letters("Content-Length");
    Letters("close");
    Letters("Keep-Alive");
  }

  /** A word without blanks, colons or carriage returns is fit for a name or a value. */
  lemma Letters(s: string)
    requires s != "" && forall c :: c in s ==> !IsSpace(c) && c != ':' && c != '\r'
    ensures NoColon(s) && NoCrlf(s) && Trimmed(s)
  {
    assert s[0] in s && s[|s| - 1] in s;
    forall i | 0 <= i && i + 1 < |s| ensures !Buffers.IsCrlf(s, i) { assert s[i] in s; }
  }

  function GeneratedMap(close: bool, body: string): map<string, string> {
    if close then map["Connection" := "close"]
    else map["Content-Length" := NatText(|body|), "Connection" := "Keep-Alive"]
  }

  /** The printed length reads back. */
  lemma AtoiOfNat(n: nat)
    ensures Atoi(NatText(n)) == n
  {
    var t := NatText(n);
    DigitsPlain(t);
    assert t[0] in t;
    DigitsWhole(t);
  }

  lemma {:induction false} DigitsWhole(s: string)
    requires AllDigits(s)
    ensures Digits(s) == s
  {
    if s != "" {
      assert s[0] in s;
      DigitsWhole(s[1..]);
    }
  }

  /** The header loop on a response's header block: it ends at the body, with the caller's fields entered over the
      generated ones. */
  lemma BlockRead(c: Context, close: bool, headers: map<string, string>, body: string)
    requires c.state.ExpectHeaders? && c.request.headers == map[]
    requires forall k :: k in headers ==> Readable(Field(k, headers[k]))
    ensures Parse(c, HeaderBlock(close, headers, body))
         == BodyStep(Context(ExpectBody, c.request.(headers := GeneratedMap(close, body) + headers)), body)
  {
    hide Parse, BodyStep, FieldsText, FieldsOf, SortedKeys, NatText, Readable;
    var generated := Generated(close, body);
    var keys := SortedKeys(headers.Keys);
    var fields := FieldsOf(headers, keys);
    GeneratedReadable(close, body);
    FieldsOfReadable(headers, keys);
    var block := HeaderBlock(close, headers, body);
    Sections(FieldsText(generated), FieldsText(fields), body);
    FieldsRead(c, generated, FieldsText(fields) + (CRLF + body));
    GeneratedEntered(close, body);
    var c1 := c.(request := c.request.(headers := GeneratedMap(close, body)));
    FieldsRead(c1, fields, CRLF + body);
    EnteredFields(headers, keys, GeneratedMap(close, body));
    assert Sub(headers, keys) == headers;
    var c2 := c1.(request := c1.request.(headers := GeneratedMap(close, body) + headers));
    BlockEnd(c2, body);
  }

  lemma Sections(a: string, b: string, body: string)
    ensures a + b + CRLF + body == a + (b + (CRLF + body))
  {
  }

  lemma GeneratedEntered(close: bool, body: string)
    ensures Entered(Generated(close, body), map[]) == GeneratedMap(close, body)
  {
    hide NatText;
    TwoFields(Field("Content-Length", NatText(|body|)), Field("Connection", "Keep-Alive"));
    TwoFields(Field("Connection", "close"), Field("Connection", "close"));
  }

  // ---------------------------------------------------------------- what can be read at all

  ghost predicate AllReadable(headers: map<string, string>) {
    forall k :: k in headers ==> Readable(Field(k, headers[k]))
  }

  lemma {:induction false} LeftTrimmed(s: string)
    ensures var t := TrimLeft(s); |t| <= |s| && t == s[|s| - |t|..] && (t != "" ==> !IsSpace(t[0]))
  {
    if s != "" && IsSpace(s[0]) {
      LeftTrimmed(s[1..]);
      var t := TrimLeft(s[1..]);
      assert s[1..][|s| - 1 - |t|..] == s[|s| - |t|..];
    }
  }

  lemma {:induction false} RightTrimmed(s: string)
    ensures var t := TrimRight(s); |t| <= |s| && t == s[..|t|] && (t != "" ==> !IsSpace(t[|t| - 1]))
  {
    if s != "" && IsSpace(s[|s| - 1]) {
      RightTrimmed(s[..|s| - 1]);
      var t := TrimRight(s[..|s| - 1]);
      assert s[..|s| - 1][..|t|] == s[..|t|];
    }
  }

  lemma SliceNoCrlf(s: string, i: nat, j: nat)
    requires i <= j <= |s| && NoCrlf(s)
    ensures NoCrlf(s[i..j])
  {
    forall k | 0 <= k && k + 1 < j - i ensures !Buffers.IsCrlf(s[i..j], k) {
      assert s[i..j][k] == s[i + k] && s[i..j][k + 1] == s[i + k + 1] && !Buffers.IsCrlf(s, i + k);
    }
  }

  lemma ValueReadable(raw: string)
    requires NoCrlf(raw)
    ensures var value := TrimRight(TrimLeft(raw)); Trimmed(value) && NoCrlf(value)
  {
    var left := TrimLeft(raw);
    var value := TrimRight(left);
    LeftTrimmed(raw);
    RightTrimmed(left);
    hide TrimLeft, TrimRight, IsSpace;
    SliceNoCrlf(raw, |raw| - |left|, |raw|);
    assert raw[|raw| - |left|..|raw|] == left && left[0..|value|] == value;
    SliceNoCrlf(left, 0, |value|);
    if value != "" { assert value[0] == left[0]; }
  }

  lemma NameReadable(line: string)
    requires NoCrlf(line) && IndexOf(':', line) < |line|
    ensures var colon := IndexOf(':', line); NoColon(line[..colon]) && NoCrlf(line[..colon]) && NoCrlf(line[colon + 1..])
  {
    var colon := IndexOf(':', line);
    SliceNoCrlf(line, 0, colon);
    SliceNoCrlf(line, colon + 1, |line|);
    assert line[0..colon] == line[..colon] && line[colon + 1..|line|] == line[colon + 1..];
    forall c | c in line[..colon] ensures c != ':' {
      var j :| 0 <= j < colon && line[j] == c;
    }
  }

  /** The loop enters nothing but readable fields. */
  lemma LineReadable(r: Request, line: string)
    requires NoCrlf(line) && AllReadable(r.headers) && IndexOf(':', line) < |line|
    ensures AllReadable(WithHeader(r, line).headers)
  {
    NameReadable(line);
    ValueReadable(line[IndexOf(':', line) + 1..]);
    hide IndexOf, TrimLeft, TrimRight, NoCrlf, NoColon, Trimmed;
  }

  lemma StepReadable(c: Context, s: string)
    requires Buffers.FindCrlf(s).Some? && AllReadable(c.request.headers)
    ensures AllReadable(HeaderStep(c, s[..Buffers.FindCrlf(s).value]).request.headers)
  {
    var i := Buffers.FindCrlf(s).value;
    var line := s[..i];
    assert NoCrlf(line) by {
      forall k | 0 <= k && k + 1 < |line| ensures !Buffers.IsCrlf(line, k) { assert !Buffers.IsCrlf(s, k); }
    }
    hide NoCrlf, WithHeader, Readable;
    if IndexOf(':', line) < |line| { LineReadable(c.request, line); }
  }

  /** Whatever the bytes, only readable fields get into the map. */
  lemma {:induction false} ParsedReadable(c: Context, s: string)
    requires c.state.ExpectHeaders? && AllReadable(c.request.headers) && Parse(c, s).Done?
    ensures AllReadable(Parse(c, s).context.request.headers)
    decreases |s|
  {
    hide AllReadable, Buffers.FindCrlf, HeaderStep, Atoi, HeaderOf;
    var crlf := Buffers.FindCrlf(s);
    if crlf.Some? {
      StepReadable(c, s);
      var c1, rest := HeaderStep(c, s[..crlf.value]), s[crlf.value + 2..];
      HeaderStates(c, s[..crlf.value]);
      if c1.state.ExpectHeaders? { ParsedReadable(c1, rest); } else { BodyKeepsHeaders(c1, rest); }
    }
  }

  lemma HeaderStates(c: Context, line: string)
    requires c.state.ExpectHeaders?
    ensures var c1 := HeaderStep(c, line); c1.state.ExpectHeaders? || c1.state.ExpectBody?
  {
  }

  lemma BodyKeepsHeaders(c: Context, s: string)
    requires c.state.ExpectBody?
    ensures Parse(c, s) == BodyStep(c, s)
    ensures Parse(c, s).Done? ==> Parse(c, s).context.request.headers == c.request.headers
  {
    hide Atoi, HeaderOf;
  }

  // ---------------------------------------------------------------- the round trips

  /** The length the parser will go by announces the whole body. In keep-alive mode a `Content-Length` of the caller's
      overrides the generated one. */
  predicate LengthAgrees(r: Request, headers: map<string, string>, body: string) {
    "Content-Length" in headers ==>
      if headers["Content-Length"] == "" then body == "" && r.body == "" else Atoi(headers["Content-Length"]) == |body|
  }

  /** The caller announces no body where none is to be taken. */
  predicate NoLength(r: Request, headers: map<string, string>) {
    "Content-Length" in headers && headers["Content-Length"] != "" ==>
      Atoi(headers["Content-Length"]) == 0 && r.body == ""
  }

  lemma Overlaid(c: Context, s: string, generated: map<string, string>, headers: map<string, string>)
    requires c.state.ExpectHeaders? && c.request.headers == map[]
    requires Parse(c, s).Done? && Parse(c, s).context.request.headers == generated + headers
    ensures AllReadable(headers)
  {
    hide Parse, Readable;
    ParsedReadable(c, s);
    forall k | k in headers ensures Readable(Field(k, headers[k])) {
      assert (generated + headers)[k] == headers[k];
    }
  }

  lemma KeepAliveLength(c: Context, headers: map<string, string>, body: string)
    ensures var c1 := Context(ExpectBody, c.request.(headers := GeneratedMap(false, body) + headers));
            BodyStep(c1, body) == Done(true, Context(GotAll, c1.request.(body := body)), "")
            <==> LengthAgrees(c.request, headers, body)
  {
    var h := GeneratedMap(false, body) + headers;
    var length := HeaderOf(c.request.(headers := h), "Content-Length");
    AtoiOfNat(|body|);
    assert body[..|body|] == body && body[|body|..] == "";
    assert length == if "Content-Length" in headers then headers["Content-Length"] else NatText(|body|);
    hide NatText, Atoi;
  }

  lemma CloseLength(c: Context, headers: map<string, string>, body: string)
    ensures var c1 := Context(ExpectBody, c.request.(headers := GeneratedMap(true, body) + headers));
            BodyStep(c1, body) == Done(true, Context(GotAll, c1.request), body) <==> NoLength(c.request, headers)
  {
    var h := GeneratedMap(true, body) + headers;
    var length := HeaderOf(c.request.(headers := h), "Content-Length");
    assert length == if "Content-Length" in headers then headers["Content-Length"] else "";
    assert body[0..] == body;
    hide Atoi;
  }

  /** Keep-alive: the parser gets the generated map overlaid with the caller's, exactly the body, and nothing is left over,
      exactly when every field is readable and a length given by the caller is the body's. */
  lemma KeepAliveRoundTrip(c: Context, headers: map<string, string>, body: string)
    requires c.state.ExpectHeaders? && c.request.headers == map[]
    ensures Parse(c, HeaderBlock(false, headers, body))
         == Done(true, Context(GotAll, c.request.(headers := GeneratedMap(false, body) + headers, body := body)), "")
        <==> AllReadable(headers) && LengthAgrees(c.request, headers, body)
  {
    hide Parse, BodyStep, Readable, HeaderBlock, LengthAgrees, GeneratedMap;
    var s := HeaderBlock(false, headers, body);
    if AllReadable(headers) {
      BlockRead(c, false, headers, body);
      KeepAliveLength(c, headers, body);
    } else if Parse(c, s).Done? && Parse(c, s).context.request.headers == GeneratedMap(false, body) + headers {
      Overlaid(c, s, GeneratedMap(false, body), headers);
      assert false;
    }
  }

  /** Closing: the length is not announced, so the body is left over behind the headers, exactly when every field is
      readable and the caller announces none either. */
  lemma CloseRoundTrip(c: Context, headers: map<string, string>, body: string)
    requires c.state.ExpectHeaders? && c.request.headers == map[]
    ensures Parse(c, HeaderBlock(true, headers, body))
         == Done(true, Context(GotAll, c.request.(headers := GeneratedMap(true, body) + headers)), body)
        <==> AllReadable(headers) && NoLength(c.request, headers)
  {
    hide Parse, BodyStep, Readable, HeaderBlock, NoLength, GeneratedMap;
    var s := HeaderBlock(true, headers, body);
    if AllReadable(headers) {
      BlockRead(c, true, headers, body);
      CloseLength(c, headers, body);
    } else if Parse(c, s).Done? && Parse(c, s).context.request.headers == GeneratedMap(true, body) + headers {
      Overlaid(c, s, GeneratedMap(true, body), headers);
      assert false;
    }
  }

  /** A name with a colon does not read back. */
  lemma ColonIsLost(c: Context, body: string)
    requires c.state.ExpectHeaders? && c.request.headers == map[]
    ensures var headers := map["a:b" := "c"];
            var request := c.request.(headers := GeneratedMap(false, body) + headers, body := body);
            Parse(c, HeaderBlock(false, headers, body)) != Done(true, Context(GotAll, request), "")
  {
    hide Parse, HeaderBlock, GeneratedMap;
    var headers := map["a:b" := "c"];
    assert "a:b" in headers && "a:b"[1] == ':' && ':' in "a:b";
    assert !Readable(Field("a:b", "c"));
    KeepAliveRoundTrip(c, headers, body);
  }
}
