/** Single lines of HTTP: which request lines are accepted and as what, header fields, numbers, the status line. */
module HttpLines {
  import opened Options
  import opened Text
  import opened HttpSpec
  import opened HttpResponses
  import Buffers

  // ---------------------------------------------------------------- the request line

  const NAMES: seq<string> := ["GET", "POST", "HEAD", "PUT", "DELETE"]
  const VERBS: seq<Method> := [Get, Post, Head, Put, Delete]

  /** The parts of an acceptable request line. The query has its question mark, and may be missing. */
  datatype Line = Line(verb: nat, path: string, query: string, minor: char)

  predicate ValidLine(l: Line) {
    && l.verb < 5 && ' ' !in l.path && '?' !in l.path && ' ' !in l.query && (l.query != "" ==> l.query[0] == '?')
    && (l.minor == '0' || l.minor == '1')
  }

  function LineText(l: Line): string
    requires l.verb < 5
  {
    NAMES[l.verb] + " " + ((l.path + l.query) + " " + ("HTTP/1." + [l.minor]))
  }

  lemma {:induction false} IndexExact(c: char, a: string, b: string)
    requires c !in a && (b == "" || b[0] == c)
    ensures IndexOf(c, a + b) == |a|
  {
    if a == "" {
      assert a + b == b;
    } else {
      assert (a + b)[0] == a[0] && a[0] in a && (a + b)[1..] == a[1..] + b;
      IndexExact(c, a[1..], b);
    }
  }

  lemma FiveNames(i: nat)
    requires i < 5
    ensures MethodOf(NAMES[i]) == VERBS[i] && !VERBS[i].Invalid? && ' ' !in NAMES[i]
  {
  }

  lemma OnlyFiveNames(m: string)
    ensures !MethodOf(m).Invalid? ==> exists i :: 0 <= i < 5 && m == NAMES[i]
  {
    assert NAMES[0] == "GET" && NAMES[1] == "POST" && NAMES[2] == "HEAD" && NAMES[3] == "PUT" && NAMES[4] == "DELETE";
  }

  lemma OneBlank(a: string, b: string)
    requires ' ' !in a
    ensures var s := a + " " + b; IndexOf(' ', s) == |a| && s[..|a|] == a && s[|a| + 1..] == b
  {
    IndexExact(' ', a, [' '] + b);
    assert a + " " + b == a + ([' '] + b);
  }

  lemma QuestionMark(path: string, query: string)
    requires '?' !in path && (query != "" ==> query[0] == '?')
    ensures var t := path + query; IndexOf('?', t) == |path| && t[..|path|] == path && t[|path|..] == query
  {
    IndexExact('?', path, query);
  }

  lemma VersionText(minor: char)
    ensures var v := "HTTP/1." + [minor]; |v| == 8 && v[..7] == "HTTP/1." && v[7] == minor
  {
  }

  /** A line of these parts is accepted and read as exactly these parts; without a query the request's own stays. */
  lemma LineRead(r: Request, l: Line)
    requires ValidLine(l)
    ensures RequestLine(r, LineText(l))
         == (true, r.(verb := VERBS[l.verb], path := l.path, query := if l.query == "" then r.query else l.query,
                      version := if l.minor == '1' then Http11 else Http10))
  {
    hide MethodOf, IndexOf;
    FiveNames(l.verb);
    var name, target, version := NAMES[l.verb], l.path + l.query, "HTTP/1." + [l.minor];
    OneBlank(name, target + " " + version);
    OneBlank(target, version);
    QuestionMark(l.path, l.query);
    VersionText(l.minor);
    if l.query == "" { assert target == l.path; }
  }

  lemma NotBefore(c: char, s: string)
    ensures c !in s[..IndexOf(c, s)]
  {
    var i := IndexOf(c, s);
    assert forall k :: 0 <= k < i ==> s[..i][k] == s[k];
  }

  lemma Cut(s: string, k: nat)
    requires k < |s|
    ensures s == s[..k] + [s[k]] + s[k + 1..]
  {
  }

  lemma BlankSplit(s: string)
    requires IndexOf(' ', s) < |s|
    ensures var sp := IndexOf(' ', s); ' ' !in s[..sp] && s == s[..sp] + " " + s[sp + 1..]
  {
    NotBefore(' ', s);
    Cut(s, IndexOf(' ', s));
  }

  lemma QuestionSplit(s: string)
    ensures var q := IndexOf('?', s); '?' !in s[..q] && s == s[..q] + s[q..] && (s[q..] != "" ==> s[q..][0] == '?')
  {
    NotBefore('?', s);
  }

  lemma VersionSplit(v: string)
    requires |v| == 8 && v[..7] == "HTTP/1."
    ensures v == "HTTP/1." + [v[7]]
  {
  }

  /** And no other line is accepted. */
  lemma OnlySuchLines(r: Request, line: string) returns (l: Line)
    requires RequestLine(r, line).0
    ensures ValidLine(l) && line == LineText(l)
  {
    hide MethodOf, IndexOf;
    var sp := IndexOf(' ', line);
    OnlyFiveNames(line[..sp]);
    var i :| 0 <= i < 5 && line[..sp] == NAMES[i];
    BlankSplit(line);
    var rest := line[sp + 1..];
    var sp2 := IndexOf(' ', rest);
    BlankSplit(rest);
    var target, version := rest[..sp2], rest[sp2 + 1..];
    QuestionSplit(target);
    VersionSplit(version);
    var q := IndexOf('?', target);
    l := Line(i, target[..q], target[q..], version[7]);
    hide RequestLine;
    assert forall c :: c in target[..q] || c in target[q..] ==> c in target;
  }

  /** A request line is accepted if and only if it is one of the five names, a target and one of the two versions, with one
      blank between them; and there is one way only to take it apart. */
  lemma LineAcceptedExactly(r: Request, line: string)
    ensures RequestLine(r, line).0 <==> exists l :: ValidLine(l) && line == LineText(l)
    ensures forall k, l :: ValidLine(k) && ValidLine(l) && LineText(k) == LineText(l) ==> k == l
  {
    hide RequestLine, LineText;
    if RequestLine(r, line).0 {
      var l := OnlySuchLines(r, line);
    }
    forall l | ValidLine(l) && line == LineText(l) ensures RequestLine(r, line).0 { LineRead(r, l); }
    forall k, l | ValidLine(k) && ValidLine(l) && LineText(k) == LineText(l) ensures k == l {
      LineRead(EMPTY_REQUEST, k);
      LineRead(EMPTY_REQUEST, l);
      VerbsDiffer(k.verb, l.verb);
    }
  }

  lemma VerbsDiffer(i: nat, j: nat)
    requires i < 5 && j < 5 && VERBS[i] == VERBS[j]
    ensures i == j
  {
  }

  /** What a rejected line leaves behind: without a known method nothing but an invalid method, else the method, and the
      target too if only the version is wrong. */
  lemma LineRejected(r: Request, i: nat, target: string, version: string)
    requires i < 5 && ' ' !in target
    ensures RequestLine(r, NAMES[i] + " " + target) == (false, r.(verb := VERBS[i]))
    ensures '?' !in target && version != "HTTP/1.1" && version != "HTTP/1.0" ==>
              RequestLine(r, NAMES[i] + " " + (target + " " + version)) == (false, r.(verb := VERBS[i], path := target))
  {
    hide MethodOf, IndexOf;
    FiveNames(i);
    OneBlank(NAMES[i], target);
    OneBlank(NAMES[i], target + " " + version);
    IndexExact(' ', target, "");
    assert target + "" == target;
    OneBlank(target, version);
    if '?' !in target { QuestionMark(target, ""); }
    if |version| == 8 && version[..7] == "HTTP/1." { VersionSplit(version); }
    assert "HTTP/1.1" == "HTTP/1." + ['1'] && "HTTP/1.0" == "HTTP/1." + ['0'];
  }

  lemma UnknownMethod(r: Request, m: string, more: string)
    requires ' ' !in m && m !in NAMES
    ensures RequestLine(r, m + " " + more) == (false, r.(verb := Invalid)) && RequestLine(r, m) == (false, r)
  {
    OneBlank(m, more);
    IndexExact(' ', m, "");
    assert m + "" == m;
    if !MethodOf(m).Invalid? { OnlyFiveNames(m); }
  }

  /** On a fresh context an accepted line with its line end is consumed, and the headers are next. */
  lemma LineConsumed(l: Line, more: string)
    requires ValidLine(l) && NoCrlf(LineText(l))
    ensures Parse(FRESH_CONTEXT, LineText(l) + CRLF + more)
         == Parse(Context(ExpectHeaders, Request(VERBS[l.verb], if l.minor == '1' then Http11 else Http10, l.path, l.query, "", map[])), more)
  {
    hide RequestLine, LineText, Buffers.FindCrlf, IndexOf;
    LineRead(EMPTY_REQUEST, l);
    LastChar(l);
    LineEnd(LineText(l), more);
    LineSplit(LineText(l), more);
  }

  lemma LastChar(l: Line)
    requires ValidLine(l)
    ensures var s := LineText(l); s != "" && s[|s| - 1] == l.minor
  {
  }

  // ---------------------------------------------------------------- header fields and numbers

  predicate Blank(s: string) { forall c :: c in s ==> IsSpace(c) }

  lemma {:induction false} TrimmedExactly(before: string, value: string, after: string)
    requires Blank(before) && Blank(after) && Trimmed(value)
    ensures TrimRight(TrimLeft(before + value + after)) == value
    decreases |before| + |after|
  {
    var s := before + value + after;
    if before != "" {
      assert before[0] in before && s[0] == before[0];
      assert s[1..] == before[1..] + value + after;
      TrimmedExactly(before[1..], value, after);
    } else if after != "" && value != "" {
      assert s == value + after && TrimLeft(s) == s;
      TrimmedAfter(value, after);
    } else if after != "" {
      assert s == after && after[0] in after;
      assert after[1..] == "" + "" + after[1..];
      TrimmedExactly("", "", after[1..]);
    } else {
      assert s == value;
    }
  }

  lemma {:induction false} TrimmedAfter(value: string, after: string)
    requires Blank(after) && value != "" && Trimmed(value)
    ensures TrimRight(value + after) == value
    decreases |after|
  {
    var s := value + after;
    if after == "" {
      assert s == value;
    } else {
      assert s[|s| - 1] == after[|after| - 1] && after[|after| - 1] in after;
      assert s[..|s| - 1] == value + after[..|after| - 1];
      TrimmedAfter(value, after[..|after| - 1]);
    }
  }

  /** A header line, whatever blanks are around its value, enters the value without them under the name before its first
      colon, and changes nothing else. */
  lemma FieldRead(r: Request, name: string, before: string, value: string, after: string)
    requires ':' !in name && Blank(before) && Blank(after) && Trimmed(value)
    ensures var line := name + ":" + (before + value + after);
            IndexOf(':', line) < |line| && WithHeader(r, line) == r.(headers := r.headers[name := value])
  {
    hide TrimLeft, TrimRight;
    var more := before + value + after;
    IndexExact(':', name, [':'] + more);
    var line := name + ":" + more;
    assert line == name + ([':'] + more);
    assert line[..|name|] == name && line[|name| + 1..] == more;
    TrimmedExactly(before, value, after);
  }

  lemma {:induction false} BlanksDropped(before: string, s: string)
    requires Blank(before) && (s != "" ==> !IsSpace(s[0]))
    ensures TrimLeft(before + s) == s
  {
    if before == "" {
      assert before + s == s;
    } else {
      assert before[0] in before && (before + s)[0] == before[0] && (before + s)[1..] == before[1..] + s;
      BlanksDropped(before[1..], s);
    }
  }

  lemma {:induction false} DigitsTaken(ds: string, more: string)
    requires AllDigits(ds) && (more != "" ==> !IsDigit(more[0]))
    ensures HttpSpec.Digits(ds + more) == ds
  {
    if ds == "" {
      assert ds + more == more;
    } else {
      assert ds[0] in ds && (ds + more)[0] == ds[0] && (ds + more)[1..] == ds[1..] + more;
      DigitsTaken(ds[1..], more);
      assert ds == [ds[0]] + ds[1..];
    }
  }

  /** A length is read past blanks and a sign, up to the first character that is no digit; without digits it is zero. */
  lemma AtoiExactly(before: string, sign: string, ds: string, more: string)
    requires Blank(before) && sign in ["", "+", "-"] && AllDigits(ds) && (more != "" ==> !IsDigit(more[0]))
    requires ds == "" && sign == "" && more != "" ==> !IsSpace(more[0]) && more[0] != '+' && more[0] != '-'
    ensures Atoi(before + (sign + (ds + more))) == if sign == "-" then -(DigitsValue(ds) as int) else DigitsValue(ds)
  {
    hide DigitsValue;
    var t := ds + more;
    DigitsTaken(ds, more);
    if ds != "" { assert t[0] == ds[0] && ds[0] in ds; }
    if sign == "" { assert sign + t == t; } else { assert (sign + t)[1..] == t; }
    BlanksDropped(before, sign + t);
  }

  // ---------------------------------------------------------------- the status line

  /** A reader of status lines: the version, a code up to a blank, a message up to the line end. */
  function ReadStatus(s: string): Option<(int, string, string)> {
    if !("HTTP/1.1 " <= s) then None
    else
      var t := s[9..];
      var sp := IndexOf(' ', t);
      if sp == |t| then None
      else
        var end := Buffers.FindCrlf(t[sp + 1..]);
        if end.None? then None
        else Some((Atoi(t[..sp]), t[sp + 1..][..end.value], t[sp + 1..][end.value + 2..]))
  }

  lemma DigitsAreNoBlanks(ds: string)
    requires AllDigits(ds)
    ensures ' ' !in ds && ' ' !in "-" + ds && "" + (("-" + ds) + "") == "-" + ds && "" + ("" + (ds + "")) == ds
  {
  }

  lemma IntTextRead(n: int)
    ensures ' ' !in IntText(n) && Atoi(IntText(n)) == n
  {
    hide NatText, Atoi, DigitsValue;
    var ds := NatText(if n < 0 then -n else n);
    DigitsAreNoBlanks(ds);
    if n < 0 {
      AtoiExactly("", "-", ds, "");
      assert "" + ("-" + (ds + "")) == "-" + ds;
    } else {
      AtoiExactly("", "", ds, "");
    }
  }

  /** The code and the message come back from the status line, and what follows is left. */
  lemma StatusRead(code: int, message: string, rest: string)
    requires NoCrlf(message) && (message != "" ==> message[|message| - 1] != '\r')
    ensures ReadStatus(StatusLine(code, message) + rest) == Some((code, message, rest))
  {
    hide IntText, Atoi, IndexOf, Buffers.FindCrlf;
    IntTextRead(code);
    var n := IntText(code);
    var m := message + CRLF + rest;
    StatusText(n, message, rest);
    OneBlank(n, m);
    LineEnd(message, rest);
    LineSplit(message, rest);
  }

  lemma StatusText(n: string, message: string, rest: string)
    ensures var s := "HTTP/1.1 " + n + " " + message + CRLF + rest;
            "HTTP/1.1 " <= s && s[9..] == n + " " + (message + CRLF + rest)
  {
    var t := n + " " + (message + CRLF + rest);
    assert "HTTP/1.1 " + n + " " + message + CRLF + rest == "HTTP/1.1 " + t;
    assert ("HTTP/1.1 " + t)[9..] == t;
  }

  lemma LineSplit(line: string, rest: string)
    ensures var s := line + CRLF + rest; s[..|line|] == line && s[|line| + 2..] == rest
  {
  }

  // ---------------------------------------------------------------- the response spelled out

  /** Any line without a colon ends the headers, and changes nothing else. */
  lemma NoColonEnds(c: Context, line: string)
    requires ':' !in line
    ensures HeaderStep(c, line) == c.(state := ExpectBody)
  {
    IndexExact(':', line, "");
    assert line + "" == line;
  }

  /** Everything behind the status line for a response with two headers of its own: the lesser name first. */
  lemma BlockText(close: bool, j: string, v: string, k: string, w: string, body: string)
    requires Before(j, k)
    ensures HeaderBlock(close, map[j := v, k := w], body)
         == (if close then "Connection: close\r\n" else "Content-Length: " + NatText(|body|) + "\r\n" + "Connection: Keep-Alive\r\n")
            + (j + ": " + v + "\r\n" + (k + ": " + w + "\r\n")) + "\r\n" + body
  {
    hide NatText, Generated, SortedKeys, FieldsText, Before;
    BeforeDiffer(j, k);
    GeneratedText(close, body);
    TwoKeys(j, k);
    var h := map[j := v, k := w];
    assert h.Keys == {j, k} && h[j] == v && h[k] == w;
    TwoOwnFields(h, j, k);
    TwoFields(Field(j, v), Field(k, w));
  }

  lemma BeforeDiffer(j: string, k: string)
    requires Before(j, k)
    ensures j != k
  {
    BeforeStrict(j, k);
  }

  lemma TwoOwnFields(h: map<string, string>, j: string, k: string)
    requires j in h && k in h
    ensures FieldsOf(h, [j, k]) == [Field(j, h[j]), Field(k, h[k])]
  {
    assert [j, k][1..] == [k] && [k][1..] == [];
    assert FieldsOf(h, [k]) == [Field(k, h[k])] + [];
  }
}
