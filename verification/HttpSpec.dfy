/** Parsing of an HTTP request as a function of the context and the buffered bytes, and its incremental law. */
module HttpSpec {
  import opened Options
  import opened Text
  import opened Buffers

  datatype Method = Invalid | Get | Post | Head | Put | Delete
  datatype Version = Unknown | Http10 | Http11
  datatype ParseState = ExpectRequestLine | ExpectHeaders | ExpectBody | GotAll

  datatype Request = Request(verb: Method, version: Version, path: string, query: string, body: string,
                             headers: map<string, string>)

  const EMPTY_REQUEST := Request(Invalid, Unknown, "", "", "", map[])

  datatype Context = Context(state: ParseState, request: Request)

  const FRESH_CONTEXT := Context(ExpectRequestLine, EMPTY_REQUEST)

  // ---------------------------------------------------------------- lines

  /** `std::find`: the first position of `c`, or the end. */
  function IndexOf(c: char, s: string): (i: nat)
    ensures i <= |s| && (i < |s| ==> s[i] == c) && forall j :: 0 <= j < i ==> s[j] != c
  {
    if s == "" || s[0] == c then 0
    else
      var i := IndexOf(c, s[1..]);
      assert forall j :: 1 <= j < |s| ==> s[j] == s[1..][j - 1];
      i + 1
  }

  function MethodOf(m: string): Method {
    if m == "GET" then Get else if m == "POST" then Post else if m == "HEAD" then Head
    else if m == "PUT" then Put else if m == "DELETE" then Delete else Invalid
  }

  function TrimLeft(s: string): string {
    if s != "" && IsSpace(s[0]) then TrimLeft(s[1..]) else s
  }

  function TrimRight(s: string): string {
    if s != "" && IsSpace(s[|s| - 1]) then TrimRight(s[..|s| - 1]) else s
  }

  /** A header line is split at its first colon; blanks around the value are dropped. */
  function WithHeader(r: Request, line: string): Request
    requires IndexOf(':', line) < |line|
  {
    var colon := IndexOf(':', line);
    r.(headers := r.headers[line[..colon] := TrimRight(TrimLeft(line[colon + 1..]))])
  }

  function HeaderOf(r: Request, field: string): string {
    if field in r.headers then r.headers[field] else ""
  }

  /** Method, target and version; what was set before a failure stays set. */
  function RequestLine(r: Request, line: string): (bool, Request) {
    var sp := IndexOf(' ', line);
    if sp == |line| then (false, r)
    else
      var r1 := r.(verb := MethodOf(line[..sp]));
      if r1.verb.Invalid? then (false, r1)
      else
        var rest := line[sp + 1..];
        var sp2 := IndexOf(' ', rest);
        if sp2 == |rest| then (false, r1)
        else
          var target, version := rest[..sp2], rest[sp2 + 1..];
          var q := IndexOf('?', target);
          var r2 := if q < |target| then r1.(path := target[..q], query := target[q..]) else r1.(path := target);
          if |version| == 8 && version[..7] == "HTTP/1." && version[7] == '1' then (true, r2.(version := Http11))
          else if |version| == 8 && version[..7] == "HTTP/1." && version[7] == '0' then (true, r2.(version := Http10))
          else (false, r2)
  }

  /** `atoi`: blanks, a sign, digits. */
  function Atoi(s: string): int {
    var t := TrimLeft(s);
    if t != "" && t[0] == '-' then 0 - DigitsValue(Digits(t[1..]))
    else if t != "" && t[0] == '+' then DigitsValue(Digits(t[1..]))
    else DigitsValue(Digits(t))
  }

  function Digits(s: string): (d: string)
    ensures AllDigits(d)
  {
    if s != "" && IsDigit(s[0]) then [s[0]] + Digits(s[1..]) else ""
  }

  // ---------------------------------------------------------------- the parser

  /** `Diverges`: the loop goes round without progress for ever. `Aborts`: an assertion fails. */
  datatype Outcome = Done(ok: bool, context: Context, rest: string) | Diverges | Aborts

  /** `setMethod` is called on every request line with a blank, and asserts that no method is set yet. */
  predicate MethodSetTwice(r: Request, line: string) { IndexOf(' ', line) < |line| && !r.verb.Invalid? }

  function Rank(s: ParseState): nat {
    match s case ExpectRequestLine => 3 case ExpectHeaders => 2 case ExpectBody => 1 case GotAll => 0
  }

  function Parse(c: Context, s: string): Outcome
    decreases |s|, Rank(c.state)
  {
    match c.state
    case ExpectRequestLine =>
      var crlf := FindCrlf(s);
      if crlf.None? then Done(true, c, s)
      else if MethodSetTwice(c.request, s[..crlf.value]) then Aborts
      else
        var (ok, r) := RequestLine(c.request, s[..crlf.value]);
        if ok then Parse(Context(ExpectHeaders, r), s[crlf.value + 2..]) else Done(false, c.(request := r), s)
    case ExpectHeaders =>
      var crlf := FindCrlf(s);
      if crlf.None? then Done(true, c, s)
      else Parse(HeaderStep(c, s[..crlf.value]), s[crlf.value + 2..])
    case ExpectBody => BodyStep(c, s)
    case GotAll => Diverges
  }

  /** Any line without a colon ends the headers. */
  function HeaderStep(c: Context, line: string): Context {
    if IndexOf(':', line) < |line| then c.(request := WithHeader(c.request, line)) else c.(state := ExpectBody)
  }

  predicate BodyComplete(r: Request, s: string) {
    HeaderOf(r, "Content-Length") == "" || 0 <= Atoi(HeaderOf(r, "Content-Length")) <= |s|
  }

  function BodyStep(c: Context, s: string): Outcome {
    var length := HeaderOf(c.request, "Content-Length");
    if length == "" then Done(true, c.(state := GotAll), s)
    else
      var n := Atoi(length);
      if 0 <= n <= |s| then Done(true, Context(GotAll, c.request.(body := s[..n])), s[n..]) else Diverges
  }

  // ---------------------------------------------------------------- termination

  /** The context and bytes with which the body is first looked at, if the bytes get that far. */
  function ReachBody(c: Context, s: string): Option<(Context, string)>
    decreases |s|, Rank(c.state)
  {
    match c.state
    case ExpectRequestLine =>
      var crlf := FindCrlf(s);
      if crlf.None? || MethodSetTwice(c.request, s[..crlf.value]) || !RequestLine(c.request, s[..crlf.value]).0 then None
      else ReachBody(Context(ExpectHeaders, RequestLine(c.request, s[..crlf.value]).1), s[crlf.value + 2..])
    case ExpectHeaders =>
      var crlf := FindCrlf(s);
      if crlf.None? then None else ReachBody(HeaderStep(c, s[..crlf.value]), s[crlf.value + 2..])
    case ExpectBody => Some((c, s))
    case GotAll => None
  }

  /** A request line with a blank is there to be read, and the context has a method already. */
  predicate AssertionFails(c: Context, s: string) {
    c.state.ExpectRequestLine? && FindCrlf(s).Some? && MethodSetTwice(c.request, s[..FindCrlf(s).value])
  }

  /** A call returns exactly when the request was not already complete, no second method is to be set and, once the headers
      are complete, the declared body is there in full. */
  lemma {:induction false} ReturnsExactly(c: Context, s: string)
    ensures Parse(c, s).Done? <==>
            !c.state.GotAll? && !AssertionFails(c, s) && (ReachBody(c, s).Some? ==>
              BodyComplete(ReachBody(c, s).value.0.request, ReachBody(c, s).value.1))
    decreases |s|, Rank(c.state)
  {
    hide FindCrlf, RequestLine, WithHeader, Atoi, HeaderOf;
    if c.state.ExpectRequestLine? {
      var crlf := FindCrlf(s);
      if crlf.Some? {
        var (ok, r) := RequestLine(c.request, s[..crlf.value]);
        if ok && !MethodSetTwice(c.request, s[..crlf.value]) { ReturnsExactly(Context(ExpectHeaders, r), s[crlf.value + 2..]); }
      }
    } else if c.state.ExpectHeaders? {
      var crlf := FindCrlf(s);
      if crlf.Some? { ReturnsExactly(HeaderStep(c, s[..crlf.value]), s[crlf.value + 2..]); }
    }
  }

  /** The assertion fails exactly then. */
  lemma {:induction false} AbortsExactly(c: Context, s: string)
    ensures Parse(c, s).Aborts? <==> AssertionFails(c, s)
  {
    hide FindCrlf, RequestLine, HeaderStep, Atoi, HeaderOf, MethodSetTwice;
    if c.state.ExpectRequestLine? {
      var crlf := FindCrlf(s);
      if crlf.Some? && !AssertionFails(c, s) {
        var (ok, r) := RequestLine(c.request, s[..crlf.value]);
        if ok { PastRequestLine(Context(ExpectHeaders, r), s[crlf.value + 2..]); }
      }
    } else {
      PastRequestLine(c, s);
    }
  }

  /** Behind the request line nothing is rejected, nothing aborts, and no request line is expected any more. */
  lemma {:induction false} PastRequestLine(c: Context, s: string)
    requires !c.state.ExpectRequestLine?
    ensures !Parse(c, s).Aborts?
    ensures Parse(c, s).Done? ==> Parse(c, s).ok && !Parse(c, s).context.state.ExpectRequestLine?
    decreases |s|
  {
    hide FindCrlf, Atoi, HeaderOf, WithHeader, IndexOf;
    if c.state.ExpectHeaders? {
      var crlf := FindCrlf(s);
      if crlf.Some? { PastRequestLine(HeaderStep(c, s[..crlf.value]), s[crlf.value + 2..]); }
    }
  }

  /** Calling again on a context that had no method before: the second call aborts exactly when the first one rejected its
      request line after it had recognised the method. The line is still there to be read. */
  lemma SecondCallAbortsExactly(c: Context, a: string, b: string)
    requires c.state.ExpectRequestLine? && c.request.verb.Invalid? && Parse(c, a).Done?
    ensures var first := Parse(c, a);
            Parse(first.context, first.rest + b).Aborts? <==> !first.ok && !first.context.request.verb.Invalid?
  {
    var first := Parse(c, a);
    AbortsExactly(first.context, first.rest + b);
    var crlf := FindCrlf(a);
    if crlf.Some? {
      var line := a[..crlf.value];
      var (ok, r) := RequestLine(c.request, line);
      MethodNeedsBlank(c.request, line);
      hide RequestLine, FindCrlf, IndexOf;
      if ok {
        PastRequestLine(Context(ExpectHeaders, r), a[crlf.value + 2..]);
      } else {
        LineStays(a, b);
        assert first == Done(false, c.(request := r), a);
      }
    }
  }

  lemma LineStays(a: string, b: string)
    requires FindCrlf(a).Some?
    ensures FindCrlf(a + b) == FindCrlf(a) && (a + b)[..FindCrlf(a).value] == a[..FindCrlf(a).value]
  {
    CrlfStays(a, b);
  }

  lemma MethodNeedsBlank(r: Request, line: string)
    requires r.verb.Invalid?
    ensures !RequestLine(r, line).1.verb.Invalid? ==> IndexOf(' ', line) < |line|
  {
  }

  // ---------------------------------------------------------------- the loop

  datatype Loop = Stopped(ok: bool, context: Context, rest: string) | Running(context: Context, rest: string) | Aborted

  /** One turn of the loop: it stops with its result, goes round with what it has made of context and bytes, or aborts. */
  function Turn(c: Context, s: string): Loop {
    match c.state
    case ExpectRequestLine =>
      var crlf := FindCrlf(s);
      if crlf.None? then Stopped(true, c, s)
      else if MethodSetTwice(c.request, s[..crlf.value]) then Aborted
      else
        var (ok, r) := RequestLine(c.request, s[..crlf.value]);
        if ok then Running(Context(ExpectHeaders, r), s[crlf.value + 2..]) else Stopped(false, c.(request := r), s)
    case ExpectHeaders =>
      var crlf := FindCrlf(s);
      if crlf.None? then Stopped(true, c, s) else Running(HeaderStep(c, s[..crlf.value]), s[crlf.value + 2..])
    case ExpectBody =>
      var length := HeaderOf(c.request, "Content-Length");
      if length == "" then Stopped(true, c.(state := GotAll), s)
      else
        var n := Atoi(length);
        if 0 <= n <= |s| then Stopped(true, Context(GotAll, c.request.(body := s[..n])), s[n..]) else Running(c, s)
    case GotAll => Running(c, s)
  }

  /** Where the loop is after at most n turns. */
  function After(n: nat, c: Context, s: string): Loop {
    if n == 0 then Running(c, s)
    else
      match Turn(c, s)
      case Aborted => Aborted
      case Stopped(ok, c', rest) => Stopped(ok, c', rest)
      case Running(c', rest) => After(n - 1, c', rest)
  }

  /** A turn either makes progress towards the same outcome or leaves everything as it is. */
  lemma TurnParse(c: Context, s: string)
    ensures match Turn(c, s)
            case Aborted => Parse(c, s).Aborts?
            case Stopped(ok, c', rest) => Parse(c, s) == Done(ok, c', rest)
            case Running(c', rest) =>
              if c' == c && rest == s then Parse(c, s).Diverges?
              else Parse(c, s) == Parse(c', rest) && (|rest| < |s| || (|rest| == |s| && Rank(c'.state) < Rank(c.state)))
  {
    hide FindCrlf, RequestLine, HeaderStep, HeaderOf, Atoi, MethodSetTwice;
  }

  /** When the outcome is that it hangs, the loop is still going after any number of turns. */
  lemma {:induction false} HangsForEver(n: nat, c: Context, s: string)
    requires Parse(c, s).Diverges?
    ensures After(n, c, s).Running?
  {
    hide Parse, Turn;
    TurnParse(c, s);
    if n > 0 {
      HangsForEver(n - 1, Turn(c, s).context, Turn(c, s).rest);
    }
  }

  /** Otherwise it stops after some number of turns, with the outcome. */
  lemma {:induction false} StopsInTime(c: Context, s: string) returns (n: nat)
    requires Parse(c, s).Done?
    ensures var r := Parse(c, s); After(n, c, s) == Stopped(r.ok, r.context, r.rest)
    decreases |s|, Rank(c.state)
  {
    hide Parse, Turn;
    TurnParse(c, s);
    match Turn(c, s)
    case Stopped(_, _, _) => n := 1;
    case Running(c', rest) =>
      var m := StopsInTime(c', rest);
      n := m + 1;
  }

  lemma LineAt(line: string, more: string)
    requires forall c :: c in line ==> c != '\r'
    ensures var s := line + ("\r\n" + more);
            FindCrlf(s) == Some(|line|) && s[..|line|] == line && s[|line| + 2..] == more
  {
    var s := line + ("\r\n" + more);
    assert IsCrlf(s, |line|);
    forall i | 0 <= i < |line| ensures !IsCrlf(s, i) { assert s[i] == line[i] && line[i] in line; }
    FirstCrlf(s, Some(|line|));
  }

  // ---------------------------------------------------------------- incremental parsing

  lemma CrlfStays(a: string, b: string)
    requires FindCrlf(a).Some?
    ensures FindCrlf(a + b) == FindCrlf(a)
  {
    var i := FindCrlf(a).value;
    assert IsCrlf(a + b, i);
    forall j | 0 <= j < i ensures !IsCrlf(a + b, j) { assert IsCrlf(a + b, j) == IsCrlf(a, j); }
    FirstCrlf(a + b, Some(i));
  }

  /** What a later call with the rest of the bytes comes to, after the outcome of an earlier one. */
  function Resume(first: Outcome, b: string): Outcome {
    match first
    case Diverges => Diverges
    case Aborts => Aborts
    case Done(ok, c, rest) =>
      if !ok then Done(false, c, rest + b)
      else if c.state.GotAll? then Done(true, c, rest + b)
      else Parse(c, rest + b)
  }

  /** Splitting the input anywhere, even inside a line end, changes nothing: parsing what came first and then the
      rest, on the same context, is parsing all at once. After a rejection or a complete request the rest of the
      bytes is simply left over. */
  lemma {:induction false} Incremental(c: Context, a: string, b: string)
    requires Parse(c, a).Done?
    ensures Parse(c, a + b) == Resume(Parse(c, a), b)
    decreases |a|, Rank(c.state)
  {
    hide FindCrlf, RequestLine, HeaderStep, Atoi, HeaderOf;
    if c.state.ExpectRequestLine? || c.state.ExpectHeaders? {
      var crlf := FindCrlf(a);
      if crlf.Some? {
        CrlfStays(a, b);
        var i := crlf.value;
        assert (a + b)[..i] == a[..i] && (a + b)[i + 2..] == a[i + 2..] + b;
        if c.state.ExpectHeaders? {
          Incremental(HeaderStep(c, a[..i]), a[i + 2..], b);
        } else if !MethodSetTwice(c.request, a[..i]) && RequestLine(c.request, a[..i]).0 {
          Incremental(Context(ExpectHeaders, RequestLine(c.request, a[..i]).1), a[i + 2..], b);
        }
      }
    } else if c.state.ExpectBody? {
    }
  }

  /** Any number of pieces. */
  function Feed(c: Context, left: string, pieces: seq<string>): Outcome
    decreases |pieces|
  {
    if pieces == [] then Done(true, c, left)
    else
      var first := Parse(c, left + pieces[0]);
      if !first.Done? then first
      else if !first.ok || first.context.state.GotAll? then first.(rest := first.rest + Joined(pieces[1..]))
      else Feed(first.context, first.rest, pieces[1..])
  }

  function Joined(pieces: seq<string>): string {
    if pieces == [] then "" else pieces[0] + Joined(pieces[1..])
  }

  /** However many pieces the bytes come in, if no call hangs the result is that of one call on all of them. */
  lemma {:induction false} AnySplit(c: Context, left: string, pieces: seq<string>)
    requires Feed(c, left, pieces).Done? && pieces != []
    ensures Feed(c, left, pieces) == Parse(c, left + Joined(pieces))
    decreases |pieces|
  {
    hide Parse;
    var a, b := left + pieces[0], Joined(pieces[1..]);
    assert left + Joined(pieces) == a + b;
    Incremental(c, a, b);
    var first := Parse(c, a);
    if first.ok && !first.context.state.GotAll? {
      if pieces[1..] != [] {
        AnySplit(first.context, first.rest, pieces[1..]);
      } else {
        assert b == "" && a + b == a;
        assert Feed(first.context, first.rest, []) == first;
      }
    }
  }
}
