/** The request parser as it runs: objects updated in place, reading from a network buffer. */
module HttpContexts {
  import opened Text
  import opened HttpSpec
  import Buffers

  class HttpRequest {
    var verb: Method
    var version: Version
    var path: string
    var query: string
    var body: string
    var headers: map<string, string>

    ghost function Abs(): Request
      reads this
    {
      Request(verb, version, path, query, body, headers)
    }

    constructor ()
      ensures Abs() == EMPTY_REQUEST
    {
      verb, version, path, query, body, headers := Invalid, Unknown, "", "", "", map[];
    }

    /** Asserts that no method is set yet. */
    method SetMethod(m: string) returns (ok: bool)
      requires verb.Invalid?
      modifies this`verb
      ensures Abs() == old(Abs()).(verb := MethodOf(m)) && ok == !MethodOf(m).Invalid?
    {
      if m == "GET" {
        verb := Get;
      } else if m == "POST" {
        verb := Post;
      } else if m == "HEAD" {
        verb := Head;
      } else if m == "PUT" {
        verb := Put;
      } else if m == "DELETE" {
        verb := Delete;
      } else {
        verb := Invalid;
      }
      ok := verb != Invalid;
    }

    /** `line` up to its CRLF; `colon` is where its first colon stands. */
    method SetHeader(line: string, colon: nat)
      requires colon == IndexOf(':', line) < |line|
      modifies this`headers
      ensures Abs() == WithHeader(old(Abs()), line)
    {
      var field := line[..colon];
      var start := colon + 1;
      while start < |line| && IsSpace(line[start])
        invariant colon + 1 <= start <= |line|
        invariant TrimLeft(line[start..]) == TrimLeft(line[colon + 1..])
      {
        assert line[start..][1..] == line[start + 1..];
        start := start + 1;
      }
      var value := line[start..];
      assert value == TrimLeft(line[colon + 1..]);
      while value != "" && IsSpace(value[|value| - 1])
        invariant TrimRight(value) == TrimRight(TrimLeft(line[colon + 1..]))
        decreases |value|
      {
        value := value[..|value| - 1];
      }
      headers := headers[field := value];
    }

    method Header(field: string) returns (value: string)
      ensures value == HeaderOf(Abs(), field)
    {
      value := if field in headers then headers[field] else "";
    }
  }

  class HttpContext {
    var state: ParseState
    const request: HttpRequest

    ghost function Abs(): Context
      reads this, request
    {
      Context(state, request.Abs())
    }

    constructor ()
      ensures Abs() == FRESH_CONTEXT && fresh(request)
    {
      state := ExpectRequestLine;
      request := new HttpRequest();
    }

    method ProcessRequestLine(line: string) returns (succeed: bool)
      requires !MethodSetTwice(request.Abs(), line)
      modifies request
      ensures (succeed, request.Abs()) == RequestLine(old(request.Abs()), line)
    {
      hide MethodOf;
      succeed := false;
      var space := IndexOf(' ', line);
      if space != |line| {
        var ok := request.SetMethod(line[..space]);
        if ok {
          var rest := line[space + 1..];
          space := IndexOf(' ', rest);
          if space != |rest| {
            SetTarget(rest[..space]);
            succeed := SetVersion(rest[space + 1..]);
          }
        }
      }
    }

    method SetTarget(target: string)
      modifies request`path, request`query
      ensures var q := IndexOf('?', target);
              request.Abs() == if q < |target| then old(request.Abs()).(path := target[..q], query := target[q..])
                               else old(request.Abs()).(path := target)
    {
      var question := IndexOf('?', target);
      if question != |target| {
        request.path := target[..question];
        request.query := target[question..];
      } else {
        request.path := target;
      }
    }

    method SetVersion(version: string) returns (succeed: bool)
      modifies request`version
      ensures succeed == (|version| == 8 && version[..7] == "HTTP/1." && (version[7] == '1' || version[7] == '0'))
      ensures request.Abs() == if !succeed then old(request.Abs())
                               else old(request.Abs()).(version := if version[7] == '1' then Http11 else Http10)
    {
      succeed := |version| == 8 && version[..7] == "HTTP/1.";
      if succeed {
        if version[7] == '1' {
          request.version := Http11;
        } else if version[7] == '0' {
          request.version := Http10;
        } else {
          succeed := false;
        }
      }
    }

    /** Where the loop stands after a turn: its local `ok` and `hasMore`, the context and the buffer. */
    ghost function Stand(ok: bool, hasMore: bool, buf: Buffers.Buffer): Loop
      requires buf.Valid()
      reads this, request, buf, buf.buffer
    {
      if hasMore then Running(Abs(), buf.Content()) else Stopped(ok, Abs(), buf.Content())
    }

    method RequestLineTurn(buf: Buffers.Buffer) returns (ok: bool, hasMore: bool)
      requires buf.Valid() && state == ExpectRequestLine && !Turn(Abs(), buf.Content()).Aborted?
      modifies this`state, request, buf`readerIndex, buf`writerIndex
      ensures buf.Valid() && (hasMore ==> ok) && Stand(ok, hasMore, buf) == Turn(old(Abs()), old(buf.Content()))
    {
      hide RequestLine, Buffers.FindCrlf;
      ok, hasMore := true, false;
      var crlf := buf.FindCRLF();
      if crlf.Some? {
        var line := buf.Peek(crlf.value);
        ok := ProcessRequestLine(line);
        if ok {
          state := ExpectHeaders;
          buf.Retrieve(crlf.value + 2);
          hasMore := true;
        }
      }
    }

    method HeaderTurn(buf: Buffers.Buffer) returns (ok: bool, hasMore: bool)
      requires buf.Valid() && state == ExpectHeaders
      modifies this`state, request, buf`readerIndex, buf`writerIndex
      ensures buf.Valid() && (hasMore ==> ok) && Stand(ok, hasMore, buf) == Turn(old(Abs()), old(buf.Content()))
    {
      hide WithHeader, Buffers.FindCrlf;
      ok, hasMore := true, false;
      var crlf := buf.FindCRLF();
      if crlf.Some? {
        var line := buf.Peek(crlf.value);
        var colon := IndexOf(':', line);
        if colon != |line| {
          request.SetHeader(line, colon);
        } else {
          state := ExpectBody;
        }
        buf.Retrieve(crlf.value + 2);
        hasMore := true;
      }
    }

    /** With the body incomplete it goes round with context and buffer as they were. */
    method BodyTurn(buf: Buffers.Buffer) returns (ok: bool, hasMore: bool)
      requires buf.Valid() && state == ExpectBody
      modifies this`state, request, buf`readerIndex, buf`writerIndex
      ensures buf.Valid() && (hasMore ==> ok) && Stand(ok, hasMore, buf) == Turn(old(Abs()), old(buf.Content()))
    {
      hide Atoi;
      ok, hasMore := true, true;
      var contentLength := request.Header("Content-Length");
      if contentLength == "" {
        state := GotAll;
        hasMore := false;
      } else {
        var bodyLen := Atoi(contentLength);
        if 0 <= bodyLen <= buf.ReadableBytes() {
          request.body := buf.RetrieveAsString(bodyLen);
          state := GotAll;
          hasMore := false;
        }
      }
    }

    /** Called only when it would return: the request is not complete yet, no second method is to be set, and a body whose
        headers are complete is there in full. */
    method ParseRequest(buf: Buffers.Buffer) returns (ok: bool)
      requires buf.Valid() && Parse(Abs(), buf.Content()).Done?
      modifies this`state, request, buf`readerIndex, buf`writerIndex
      ensures buf.Valid()
      ensures Parse(old(Abs()), old(buf.Content())) == Done(ok, Abs(), buf.Content())
    {
      hide Turn, Parse;
      ok := true;
      var hasMore := true;
      ghost var outcome := Parse(Abs(), buf.Content());
      while hasMore
        invariant buf.Valid()
        invariant hasMore ==> Parse(Abs(), buf.Content()) == outcome
        invariant !hasMore ==> outcome == Done(ok, Abs(), buf.Content())
        decreases hasMore, |buf.Content()|, Rank(state)
      {
        TurnParse(Abs(), buf.Content());
        NotComplete(Abs(), buf.Content());
        if state == ExpectRequestLine {
          ok, hasMore := RequestLineTurn(buf);
        } else if state == ExpectHeaders {
          ok, hasMore := HeaderTurn(buf);
        } else {
          ok, hasMore := BodyTurn(buf);
        }
      }
    }
  }

  lemma NotComplete(c: Context, s: string)
    ensures Parse(c, s).Done? ==> !c.state.GotAll?
  {
  }
}
