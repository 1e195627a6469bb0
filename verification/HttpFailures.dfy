/** Requests on which a call never returns, or aborts. */
module HttpFailures {
  import opened Options
  import opened Text
  import opened HttpSpec
  import opened HttpResponses

  lemma IndexIs(c: char, s: string, i: nat)
    requires i <= |s| && (i < |s| ==> s[i] == c) && forall j :: 0 <= j < i ==> s[j] != c
    ensures IndexOf(c, s) == i
  {
  }

  /** A request line in order. */
  lemma RequestLineRead(r: Request, m: string, target: string, line: string)
    requires !MethodOf(m).Invalid? && ' ' !in m && ' ' !in target && '?' !in target
    requires line == m + (" " + (target + " HTTP/1.1"))
    ensures RequestLine(r, line) == (true, r.(verb := MethodOf(m), path := target, version := Http11))
  {
    hide IndexOf, MethodOf;
    var rest, version := target + " HTTP/1.1", "HTTP/1.1";
    UpTo(' ', m, rest, line);
    assert rest == target + ([' '] + version);
    UpTo(' ', target, version, rest);
    assert forall j :: 0 <= j < |target| ==> target[j] in target;
    IndexIs('?', target, |target|);
    VersionOne(version);
  }

  lemma UpTo(c: char, word: string, rest: string, s: string)
    requires c !in word && s == word + ([c] + rest)
    ensures IndexOf(c, s) == |word| < |s| && s[..|word|] == word && s[|word| + 1..] == rest
  {
    assert forall j :: 0 <= j < |word| ==> s[j] == word[j] && word[j] in word;
    IndexIs(c, s, |word|);
  }

  lemma VersionOne(version: string)
    requires version == "HTTP/1.1"
    ensures |version| == 8 && version[..7] == "HTTP/1." && version[7] == '1'
  {
  }

  /** The text of a request that declares `length` bytes of body and carries `body`. */
  function RequestText(m: string, target: string, length: nat, body: string): string {
    m + (" " + (target + " HTTP/1.1")) + (CRLF + (FieldLine(Field("Content-Length", NatText(length))) + (CRLF + (CRLF + body))))
  }

  /** Whatever the request, while fewer bytes of body have arrived than it declares, the call goes round for ever. */
  lemma IncompleteBodyHangs(m: string, target: string, length: nat, body: string, turns: nat)
    requires !MethodOf(m).Invalid? && ' ' !in m && ' ' !in target && '?' !in target && '\r' !in target
    requires |body| < length
    ensures var s := RequestText(m, target, length, body);
            Parse(FRESH_CONTEXT, s).Diverges? && After(turns, FRESH_CONTEXT, s).Running?
  {
    hide Parse, Turn, RequestLine, HeaderStep, NatText, Atoi, FieldLine, Readable;
    var f := Field("Content-Length", NatText(length));
    var line := m + (" " + (target + " HTTP/1.1"));
    var s1 := CRLF + body;
    var s2 := FieldLine(f) + (CRLF + s1);
    var s := line + (CRLF + s2);
    PlainMethod(m);
    PlainLine(m, target, line);
    LineAt(line, s2);
    RequestLineRead(EMPTY_REQUEST, m, target, line);
    FirstTurn(FRESH_CONTEXT, s, line, s2);
    var c1 := Turn(FRESH_CONTEXT, s).context;
    NamedReadable(NatText(length));
    FieldLineEnd(f);
    LineEnd(FieldLine(f), s1);
    assert FieldLine(f) + CRLF + s1 == s2;
    HeaderRead(c1, f);
    HeaderTurns(c1, s2, FieldLine(f), s1);
    var c2 := HeaderStep(c1, FieldLine(f));
    LineAt("", body);
    assert "" + (CRLF + body) == s1;
    HeaderTurns(c2, s1, "", body);
    EmptyLineEnds(c2);
    AtoiOfNat(length);
    BodyWaits(c2.(state := ExpectBody), length, body);
    HangsForEver(turns, FRESH_CONTEXT, s);
  }

  lemma PlainMethod(m: string)
    requires !MethodOf(m).Invalid?
    ensures forall c :: c in m ==> c != '\r'
  {
  }

  lemma PlainLine(m: string, target: string, line: string)
    requires (forall c :: c in m ==> c != '\r') && '\r' !in target && line == m + (" " + (target + " HTTP/1.1"))
    ensures forall c :: c in line ==> c != '\r'
  {
    assert forall c :: c in " HTTP/1.1" ==> c != '\r';
    assert forall c :: c in line ==> c in m || c == ' ' || c in target || c in " HTTP/1.1";
  }

  lemma FirstTurn(c: Context, s: string, line: string, rest: string)
    requires c.state.ExpectRequestLine? && Buffers.FindCrlf(s) == Some(|line|) && |line| + 2 <= |s|
    requires s[..|line|] == line && s[|line| + 2..] == rest && RequestLine(c.request, line).0 && c.request.verb.Invalid?
    ensures Turn(c, s) == Running(Context(ExpectHeaders, RequestLine(c.request, line).1), rest)
    ensures Parse(c, s) == Parse(Context(ExpectHeaders, RequestLine(c.request, line).1), rest)
  {
    hide HeaderStep, BodyStep, RequestLine, Buffers.FindCrlf;
  }

  lemma HeaderTurns(c: Context, s: string, line: string, rest: string)
    requires c.state.ExpectHeaders? && Buffers.FindCrlf(s) == Some(|line|) && s == line + (CRLF + rest)
    ensures Parse(c, s) == Parse(HeaderStep(c, line), rest)
  {
    hide HeaderStep, BodyStep, RequestLine, Buffers.FindCrlf;
    assert s[..|line|] == line && s[|line| + 2..] == rest;
  }

  lemma EmptyLineEnds(c: Context)
    ensures HeaderStep(c, "") == c.(state := ExpectBody)
  {
  }

  lemma BodyWaits(c: Context, length: nat, body: string)
    requires c.state.ExpectBody? && HeaderOf(c.request, "Content-Length") == NatText(length) != ""
    requires Atoi(NatText(length)) == length > |body|
    ensures Parse(c, body).Diverges?
  {
  }

  /** The shortest such request: one byte of body, not there yet. */
  lemma MissingBodyHangs(turns: nat)
    ensures var s := "POST / HTTP/1.1\r\nContent-Length: 1\r\n\r\n";
            Parse(FRESH_CONTEXT, s).Diverges? && After(turns, FRESH_CONTEXT, s).Running?
  {
    hide Parse, After;
    ShortText("POST", "/", 1, "");
    IncompleteBodyHangs("POST", "/", 1, "", turns);
  }

  lemma ShortText(m: string, target: string, length: nat, body: string)
    requires m == "POST" && target == "/" && length == 1 && body == ""
    ensures RequestText(m, target, length, body) == "POST / HTTP/1.1\r\nContent-Length: 1\r\n\r\n"
  {
    OneDigit(length);
    hide NatText;
    var first, second := "POST / HTTP/1.1", "Content-Length: 1";
    assert m + (" " + (target + " HTTP/1.1")) == first;
    assert FieldLine(Field("Content-Length", NatText(length))) == second;
    assert first + (CRLF + (second + (CRLF + (CRLF + body)))) == "POST / HTTP/1.1\r\nContent-Length: 1\r\n\r\n";
  }

  lemma OneDigit(n: nat)
    requires n < 10
    ensures NatText(n) == [DigitChar(n)]
  {
  }

  // ---------------------------------------------------------------- a second call after a rejection

  const SHORT_LINE := "GET /" + ("\r\n" + "")

  /** A request line without a version is rejected and stays unread; the next call on the context aborts. */
  lemma SecondCallAborts()
    ensures SHORT_LINE == "GET /\r\n"
    ensures var first := Parse(FRESH_CONTEXT, SHORT_LINE);
            && first == Done(false, Context(ExpectRequestLine, EMPTY_REQUEST.(verb := Get)), SHORT_LINE)
            && Parse(first.context, first.rest).Aborts?
  {
    LineAt("GET /", "");
    NoVersion("GET", "/", "GET /");
    hide RequestLine, Buffers.FindCrlf, IndexOf;
    var c := Context(ExpectRequestLine, EMPTY_REQUEST.(verb := Get));
    AbortsExactly(c, SHORT_LINE);
  }

  lemma NoVersion(m: string, target: string, line: string)
    requires m == "GET" && target == "/" && line == "GET /"
    ensures RequestLine(EMPTY_REQUEST, line) == (false, EMPTY_REQUEST.(verb := Get))
    ensures IndexOf(' ', line) < |line|
  {
    hide IndexOf;
    UpTo(' ', m, target, line);
    IndexIs(' ', target, 1);
  }
}
