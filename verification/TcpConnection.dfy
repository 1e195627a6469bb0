/** The output side of a connection: immediate writes, buffering of what the socket would not take, draining on
    write events, and graceful shutdown. */
module TcpConnections {
  import Buffers

  datatype State = Connecting | Connected | Disconnecting | Disconnected

  /** Connection state, channel's write interest, buffered bytes; then the history: bytes the socket took, bytes
      of all accepted sends in order, and calls of `shutdownWrite`. `draining` marks the time from an emptied buffer
      to the end of `handleWrite`, when the write-complete callback runs. */
  datatype Conn = Conn(state: State, writing: bool, output: string, wire: string, accepted: string,
                       shutdowns: nat, draining: bool)

  const FRESH := Conn(Connecting, false, "", "", "", 0, false)

  /** A `write` of `n` bytes returns -1 or how many of them it took. */
  predicate WriteResult(w: int, n: nat) { -1 <= w <= n }

  datatype Event = Establish | Send(data: string, w: int) | Drain(w: int) | FinishDrain | Shutdown | Close

  predicate Immediate(c: Conn) { !c.writing && c.output == "" }

  predicate Enabled(c: Conn, e: Event) {
    match e
    case Establish => c == FRESH
    case Send(data, w) => WriteResult(w, |data|)
    case Drain(w) => !c.draining && WriteResult(w, |c.output|)
    case FinishDrain => c.draining
    case Shutdown => true
    case Close => !c.draining
  }

  /** `send`: a failed immediate write drops the message; a partial one buffers the rest. */
  function SendStep(c: Conn, data: string, w: int): Conn
    requires WriteResult(w, |data|)
  {
    if Immediate(c) && w == -1 then c
    else
      var n := if Immediate(c) then w else 0;
      var c' := c.(wire := c.wire + data[..n], accepted := c.accepted + data);
      if n < |data| then c'.(output := c.output + data[n..], writing := true) else c'
  }

  /** `handleWrite` up to its callback. A failed write, like one that took nothing, changes nothing. */
  function DrainStep(c: Conn, w: int): Conn
    requires WriteResult(w, |c.output|)
  {
    if !c.writing || w <= 0 then c
    else
      var c' := c.(wire := c.wire + c.output[..w], output := c.output[w..]);
      if w == |c.output| then c'.(writing := false, draining := true) else c'
  }

  function FinishStep(c: Conn): Conn {
    var c' := c.(draining := false);
    if c.state == Disconnecting then c'.(shutdowns := c.shutdowns + 1) else c'
  }

  function ShutdownStep(c: Conn): Conn {
    if c.state != Connected then c
    else
      var c' := c.(state := Disconnecting);
      if c.writing then c' else c'.(shutdowns := c.shutdowns + 1)
  }

  function Step(c: Conn, e: Event): Conn
    requires Enabled(c, e)
  {
    match e
    case Establish => c.(state := Connected)
    case Send(data, w) => SendStep(c, data, w)
    case Drain(w) => DrainStep(c, w)
    case FinishDrain => FinishStep(c)
    case Shutdown => ShutdownStep(c)
    case Close => c.(state := Disconnected, writing := false)
  }

  predicate IsRun(c: Conn, es: seq<Event>)
    decreases |es|
  {
    es == [] || (Enabled(c, es[0]) && IsRun(Step(c, es[0]), es[1..]))
  }

  function Run(c: Conn, es: seq<Event>): Conn
    requires IsRun(c, es)
    decreases |es|
  {
    if es == [] then c else Run(Step(c, es[0]), es[1..])
  }

  // ---------------------------------------------------------------- conservation

  predicate Inv(c: Conn) {
    && c.wire + c.output == c.accepted
    && (c.writing ==> c.output != "")
    && (c.state != Disconnected ==> (c.writing <==> c.output != ""))
  }

  lemma SendKeeps(c: Conn, data: string, w: int)
    requires Inv(c) && WriteResult(w, |data|)
    ensures Inv(SendStep(c, data, w))
  {
    var n := if Immediate(c) then w else 0;
    if !(Immediate(c) && w == -1) {
      assert data[..n] + data[n..] == data;
      if Immediate(c) {
        assert c.wire + "" == c.wire;
        assert c.wire + data[..n] + ("" + data[n..]) == c.wire + data;
      } else {
        assert n == 0 && data[..0] == "" && c.wire + "" == c.wire && data[0..] == data;
        assert c.wire + (c.output + data) == c.wire + c.output + data;
      }
      if n == |data| {
        assert data[..n] == data;
        if !Immediate(c) { assert data == ""; }
      }
    }
  }

  lemma DrainKeeps(c: Conn, w: int)
    requires Inv(c) && WriteResult(w, |c.output|)
    ensures Inv(DrainStep(c, w))
  {
    if c.writing && w > 0 {
      assert c.wire + c.output[..w] + c.output[w..] == c.wire + c.output;
    }
  }

  lemma StepKeeps(c: Conn, e: Event)
    requires Inv(c) && Enabled(c, e)
    ensures Inv(Step(c, e))
  {
    match e
    case Send(data, w) => SendKeeps(c, data, w);
    case Drain(w) => DrainKeeps(c, w);
    case _ =>
  }

  lemma {:induction false} RunKeeps(c: Conn, es: seq<Event>)
    requires Inv(c) && IsRun(c, es)
    ensures Inv(Run(c, es))
    decreases |es|
  {
    hide Inv, Step;
    if es != [] {
      StepKeeps(c, es[0]);
      RunKeeps(Step(c, es[0]), es[1..]);
    }
  }

  /** The messages a run accepts, in order: all that are sent, except with nothing buffered and no wait for write events,
      when the immediate write fails. */
  function AcceptedSends(c: Conn, es: seq<Event>): string
    requires IsRun(c, es)
    decreases |es|
  {
    if es == [] then ""
    else
      var refused := !c.writing && c.output == "" && es[0].Send? && es[0].w == -1;
      (if es[0].Send? && !refused then es[0].data else "") + AcceptedSends(Step(c, es[0]), es[1..])
  }

  /** How many bytes the socket has taken: in immediate writes and in write events while the channel waits for them. */
  function TakenBySocket(c: Conn, es: seq<Event>): nat
    requires IsRun(c, es)
    decreases |es|
  {
    if es == [] then 0
    else
      var writes := match es[0]
        case Send(_, _) => !c.writing && c.output == ""
        case Drain(_) => c.writing
        case _ => false;
      (if writes && es[0].w > 0 then es[0].w else 0) + TakenBySocket(Step(c, es[0]), es[1..])
  }

  lemma {:induction false} AcceptedRun(c: Conn, es: seq<Event>)
    requires IsRun(c, es)
    ensures Run(c, es).accepted == c.accepted + AcceptedSends(c, es)
    ensures |Run(c, es).wire| == |c.wire| + TakenBySocket(c, es)
    decreases |es|
  {
    if es == [] {
      assert c.accepted + "" == c.accepted;
    } else {
      AcceptedRun(Step(c, es[0]), es[1..]);
      AcceptedStep(c, es[0]);
      var now := if es[0].Send? && !(!c.writing && c.output == "" && es[0].w == -1) then es[0].data else "";
      hide Step, Enabled, IsRun;
      assert c.accepted + now + AcceptedSends(Step(c, es[0]), es[1..]) == c.accepted + (now + AcceptedSends(Step(c, es[0]), es[1..]));
    }
  }

  lemma AcceptedStep(c: Conn, e: Event)
    requires Enabled(c, e)
    ensures var refused := !c.writing && c.output == "" && e.Send? && e.w == -1;
            Step(c, e).accepted == c.accepted + if e.Send? && !refused then e.data else ""
    ensures var writes := if e.Send? then !c.writing && c.output == "" else e.Drain? && c.writing;
            |Step(c, e).wire| == |c.wire| + if writes && e.w > 0 then e.w else 0
  {
    assert c.accepted + "" == c.accepted;
  }

  /** In every run from a fresh connection, with any partial and failed writes and any calls from callbacks: the
      bytes on the wire followed by the buffered bytes are the accepted sends in order; on the wire are as many of them as
      the socket took; and until disconnection the channel waits for write events exactly while bytes are buffered. */
  lemma OutputConserved(es: seq<Event>)
    requires IsRun(FRESH, es)
    ensures var c := Run(FRESH, es);
            && c.wire + c.output == c.accepted == AcceptedSends(FRESH, es)
            && |c.wire| == TakenBySocket(FRESH, es)
            && (c.state != Disconnected ==> (c.writing <==> c.output != ""))
  {
    RunKeeps(FRESH, es);
    AcceptedRun(FRESH, es);
    assert "" + AcceptedSends(FRESH, es) == AcceptedSends(FRESH, es);
  }

  lemma Front(c: Conn, e: Event, es: seq<Event>)
    requires Enabled(c, e) && IsRun(Step(c, e), es)
    ensures IsRun(c, [e] + es) && Run(c, [e] + es) == Run(Step(c, e), es)
  {
    assert ([e] + es)[1..] == es;
  }

  // ---------------------------------------------------------------- graceful shutdown

  /** Callbacks do not re-enter, and nothing is sent once shutdown was requested. */
  predicate Graceful(c: Conn, e: Event) {
    && Enabled(c, e)
    && (c.draining ==> e.FinishDrain?)
    && (e.Send? ==> c.state != Disconnecting && c.shutdowns == 0)
  }

  predicate IsGracefulRun(c: Conn, es: seq<Event>)
    decreases |es|
  {
    es == [] || (Graceful(c, es[0]) && IsGracefulRun(Step(c, es[0]), es[1..]))
  }

  predicate ShutdownInv(c: Conn) {
    && Inv(c) && c.shutdowns <= 1
    && (c.draining ==> c.output == "" && c.shutdowns == 0)
    && (c.shutdowns == 1 ==> c.output == "" && !c.writing && c.state in {Disconnecting, Disconnected})
    && (c.state == Disconnecting && c.shutdowns == 0 ==> c.output != "" || c.draining)
  }

  lemma GracefulStep(c: Conn, e: Event)
    requires ShutdownInv(c) && Graceful(c, e)
    ensures ShutdownInv(Step(c, e))
    ensures Step(c, e).shutdowns > c.shutdowns ==> Step(c, e).wire == Step(c, e).accepted
  {
    StepKeeps(c, e);
    var c' := Step(c, e);
    if c'.output == "" { assert c'.wire + c'.output == c'.wire; }
  }

  lemma {:induction false} GracefulRun(c: Conn, es: seq<Event>)
    requires ShutdownInv(c) && IsGracefulRun(c, es)
    ensures IsRun(c, es) && ShutdownInv(Run(c, es))
    decreases |es|
  {
    hide ShutdownInv, Step;
    if es != [] {
      GracefulStep(c, es[0]);
      GracefulRun(Step(c, es[0]), es[1..]);
    }
  }

  /** In every such run the socket's write side is shut at most once, only with every accepted byte on the wire,
      and a connection asked to shut down whose buffer is empty has been shut. */
  lemma GracefulShutdown(es: seq<Event>)
    requires IsGracefulRun(FRESH, es)
    ensures IsRun(FRESH, es)
    ensures var c := Run(FRESH, es);
            && c.shutdowns <= 1
            && (c.shutdowns == 1 ==> c.wire == c.accepted)
            && (c.state == Disconnecting && c.output == "" && !c.draining ==> c.shutdowns == 1)
  {
    GracefulRun(FRESH, es);
    var c := Run(FRESH, es);
    assert c.wire + "" == c.wire;
  }

  // ---------------------------------------------------------------- shutdown over every run

  /** Whenever the write side is shut, every accepted byte is on the wire. */
  predicate ShutsClean(c: Conn, es: seq<Event>)
    requires IsRun(c, es)
    decreases |es|
  {
    es != [] ==>
      var c' := Step(c, es[0]);
      (c'.shutdowns > c.shutdowns ==> c.wire == c.accepted) && ShutsClean(c', es[1..])
  }

  /** The send finds bytes waiting before it, or the socket takes only part. */
  predicate LeavesOver(c: Conn, e: Event) {
    e.Send? && if Immediate(c) then 0 <= e.w < |e.data| else e.data != ""
  }

  /** Some write-complete callback left bytes over, and the connection was shutting down when its `handleWrite` went
      on. `left` tells whether the callback now running, if any, has left bytes over. */
  predicate CallbackLeavesOver(c: Conn, es: seq<Event>, left: bool)
    requires IsRun(c, es)
    decreases |es|
  {
    es != [] &&
    ((es[0].FinishDrain? && left && c.state == Disconnecting)
      || CallbackLeavesOver(Step(c, es[0]), es[1..],
                            if es[0].Drain? || es[0].FinishDrain? then false else left || (c.draining && LeavesOver(c, es[0]))))
  }

  lemma {:induction false} ShutsCleanFrom(c: Conn, es: seq<Event>, left: bool)
    requires Inv(c) && IsRun(c, es) && (if c.draining then left <==> c.output != "" else !left)
    ensures ShutsClean(c, es) <==> !CallbackLeavesOver(c, es, left)
    decreases |es|
  {
    if es != [] {
      var e := es[0];
      StepKeeps(c, e);
      SameLength(c);
      var next := if e.Drain? || e.FinishDrain? then false else left || (c.draining && LeavesOver(c, e));
      LeftAfter(c, e, left);
      ShutsCleanFrom(Step(c, e), es[1..], next);
    }
  }

  lemma SameLength(c: Conn)
    requires Inv(c)
    ensures c.wire == c.accepted <==> c.output == ""
  {
    assert |c.wire + c.output| == |c.wire| + |c.output|;
    if c.output == "" { assert c.wire + "" == c.wire; }
  }

  lemma LeftAfter(c: Conn, e: Event, left: bool)
    requires Inv(c) && Enabled(c, e) && (if c.draining then left <==> c.output != "" else !left)
    ensures var c' := Step(c, e);
            var next := if e.Drain? || e.FinishDrain? then false else left || (c.draining && LeavesOver(c, e));
            if c'.draining then next <==> c'.output != "" else !next
  {
  }

  /** Over every run: the write side is never shut with accepted bytes still buffered, exactly when no write-complete
      callback leaves bytes over in a `handleWrite` that goes on while the connection is shutting down. */
  lemma ShutsCleanExactly(es: seq<Event>)
    requires IsRun(FRESH, es)
    ensures ShutsClean(FRESH, es) <==> !CallbackLeavesOver(FRESH, es, false)
  {
    ShutsCleanFrom(FRESH, es, false);
  }

  /** A `handleWrite` goes on to shut a write side that is shut already: it emptied the buffer of a connection whose
      write side was shut before, or its callback asked for the shutdown with nothing waiting. `again` tells so of the
      `handleWrite` now running, if any. */
  predicate ShutAgain(c: Conn, es: seq<Event>, again: bool)
    requires IsRun(c, es)
    decreases |es|
  {
    es != [] &&
    ((es[0].FinishDrain? && again) || ShutAgain(Step(c, es[0]), es[1..], Again(c, es[0], again)))
  }

  predicate Again(c: Conn, e: Event, again: bool) {
    match e
    case Drain(_) => c.state == Disconnecting && c.shutdowns > 0
    case Shutdown => again || (c.draining && c.state == Connected && !c.writing)
    case _ => again
  }

  /** Before any second shut. */
  predicate OnceSoFar(c: Conn, again: bool) {
    && c.shutdowns <= 1
    && (c.shutdowns == 1 ==> c.state in {Disconnecting, Disconnected})
    && (c.draining ==> (again <==> c.shutdowns == 1 && c.state == Disconnecting))
  }

  lemma {:induction false} ShutOnceFrom(c: Conn, es: seq<Event>, again: bool)
    requires IsRun(c, es) && OnceSoFar(c, again)
    ensures Run(c, es).shutdowns <= 1 <==> !ShutAgain(c, es, again)
    decreases |es|
  {
    if es != [] {
      var c' := Step(c, es[0]);
      if es[0].FinishDrain? && again {
        ShutdownsGrow(c', es[1..]);
      } else {
        OnceMore(c, es[0], again);
        ShutOnceFrom(c', es[1..], Again(c, es[0], again));
      }
    }
  }

  lemma OnceMore(c: Conn, e: Event, again: bool)
    requires Enabled(c, e) && OnceSoFar(c, again) && !(e.FinishDrain? && again)
    ensures OnceSoFar(Step(c, e), Again(c, e, again))
  {
  }

  lemma {:induction false} ShutdownsGrow(c: Conn, es: seq<Event>)
    requires IsRun(c, es)
    ensures Run(c, es).shutdowns >= c.shutdowns
    decreases |es|
  {
    if es != [] { ShutdownsGrow(Step(c, es[0]), es[1..]); }
  }

  /** Over every run: the write side is shut at most once exactly when no `handleWrite` shuts it again. */
  lemma ShutOnceExactly(es: seq<Event>)
    requires IsRun(FRESH, es)
    ensures Run(FRESH, es).shutdowns <= 1 <==> !ShutAgain(FRESH, es, false)
  {
    ShutOnceFrom(FRESH, es, false);
  }

  predicate ShutInTime(c: Conn) { c.state == Disconnecting && c.shutdowns == 0 ==> c.output != "" || c.draining }

  lemma {:induction false} ShutInTimeFrom(c: Conn, es: seq<Event>)
    requires Inv(c) && ShutInTime(c) && IsRun(c, es)
    ensures ShutInTime(Run(c, es))
    decreases |es|
  {
    if es != [] {
      StepKeeps(c, es[0]);
      ShutInTimeFrom(Step(c, es[0]), es[1..]);
    }
  }

  /** Over every run: outside callbacks, a connection that is shutting down with an empty buffer has been shut. */
  lemma DrainedIsShut(es: seq<Event>)
    requires IsRun(FRESH, es)
    ensures var c := Run(FRESH, es); c.state == Disconnecting && c.output == "" && !c.draining ==> c.shutdowns >= 1
  {
    ShutInTimeFrom(FRESH, es);
  }

  /** A write-complete callback that sends while the connection is shutting down: a byte is still buffered when the
      write side is shut. */
  lemma ReentrantSendIsCutOff()
    ensures var es := [Establish, Send("ab", 1), Shutdown, Drain(1), Send("cd", 1), FinishDrain];
            && IsRun(FRESH, es) && Run(FRESH, es).shutdowns == 1 && Run(FRESH, es).output == "d"
            && !ShutsClean(FRESH, es)
  {
  }

  /** A write-complete callback that only asks for the shutdown: the write side is shut at once, and again when
      `handleWrite` goes on. */
  lemma CallbackShutsTwice()
    ensures var es := [Establish, Send("ab", 1), Drain(1), Shutdown, FinishDrain];
            IsRun(FRESH, es) && Run(FRESH, es).shutdowns == 2
  {
  }

  /** With bytes waiting the same request shuts nothing at once, and the write side is shut once. */
  lemma CallbackShutsOnce()
    ensures var es := [Establish, Send("ab", 1), Drain(1), Send("cd", 1), Shutdown, FinishDrain];
            IsRun(FRESH, es) && Run(FRESH, es).shutdowns == 1
  {
  }

  // ---------------------------------------------------------------- callbacks

  /** What a write-complete callback may do to the connection. A send that the socket takes whole calls the callback
      again, inside `send`. */
  datatype Call = CallSend(data: string, w: int, calls: seq<Call>) | CallShutdown

  predicate ValidCall(k: Call) {
    k.CallSend? ==> WriteResult(k.w, |k.data|) && forall j :: j in k.calls ==> ValidCall(j)
  }

  predicate ValidCalls(ks: seq<Call>) { forall k :: k in ks ==> ValidCall(k) }

  predicate TakenWhole(c: Conn, data: string, w: int) { Immediate(c) && w == |data| }

  /** `send`, with what its callback does if it runs. */
  function SendCalls(c: Conn, data: string, w: int, calls: seq<Call>): Conn
    requires WriteResult(w, |data|) && ValidCalls(calls)
    decreases calls, 1
  {
    var c' := SendStep(c, data, w);
    if TakenWhole(c, data, w) then CallsStep(c', calls) else c'
  }

  function CallStep(c: Conn, k: Call): Conn
    requires ValidCall(k)
    decreases k, 2
  {
    match k
    case CallSend(data, w, calls) => SendCalls(c, data, w, calls)
    case CallShutdown => ShutdownStep(c)
  }

  function CallsStep(c: Conn, ks: seq<Call>): Conn
    requires ValidCalls(ks)
    decreases ks, 0
  {
    if ks == [] then c else CallsStep(CallStep(c, ks[0]), ks[1..])
  }

  /** The steps a callback's calls are. */
  function CallEvents(c: Conn, k: Call): seq<Event>
    requires ValidCall(k)
    decreases k, 1
  {
    match k
    case CallSend(data, w, calls) =>
      [Send(data, w)] + if TakenWhole(c, data, w) then CallsEvents(SendStep(c, data, w), calls) else []
    case CallShutdown => [Shutdown]
  }

  function CallsEvents(c: Conn, ks: seq<Call>): seq<Event>
    requires ValidCalls(ks)
    decreases ks, 0
  {
    if ks == [] then [] else CallEvents(c, ks[0]) + CallsEvents(CallStep(c, ks[0]), ks[1..])
  }

  lemma {:induction false} RunConcat(c: Conn, a: seq<Event>, b: seq<Event>)
    requires IsRun(c, a) && IsRun(Run(c, a), b)
    ensures IsRun(c, a + b) && Run(c, a + b) == Run(Run(c, a), b)
    decreases |a|
  {
    hide Step, Enabled;
    if a == [] {
      assert a + b == b;
    } else {
      assert (a + b)[1..] == a[1..] + b;
      RunConcat(Step(c, a[0]), a[1..], b);
    }
  }

  lemma {:induction false} CallIsRun(c: Conn, k: Call)
    requires ValidCall(k)
    ensures IsRun(c, CallEvents(c, k)) && Run(c, CallEvents(c, k)) == CallStep(c, k)
    decreases k, 1
  {
    match k
    case CallSend(data, w, calls) =>
      var c' := SendStep(c, data, w);
      if TakenWhole(c, data, w) {
        CallsAreRun(c', calls);
        Front(c, Send(data, w), CallsEvents(c', calls));
      } else {
        Front(c, Send(data, w), []);
      }
    case CallShutdown =>
      Front(c, Shutdown, []);
      assert [Shutdown] + [] == [Shutdown];
  }

  lemma {:induction false} CallsAreRun(c: Conn, ks: seq<Call>)
    requires ValidCalls(ks)
    ensures IsRun(c, CallsEvents(c, ks)) && Run(c, CallsEvents(c, ks)) == CallsStep(c, ks)
    decreases ks, 0
  {
    if ks != [] {
      CallIsRun(c, ks[0]);
      CallsAreRun(CallStep(c, ks[0]), ks[1..]);
      RunConcat(c, CallEvents(c, ks[0]), CallsEvents(CallStep(c, ks[0]), ks[1..]));
    }
  }

  /** A whole `handleWrite`. */
  function HandleWriteStep(c: Conn, w: int, calls: seq<Call>): Conn
    requires WriteResult(w, |c.output|) && ValidCalls(calls)
  {
    var drained := DrainStep(c, w);
    if drained.draining then FinishStep(CallsStep(drained, calls)) else drained
  }

  /** The messages a callback's calls accept, in order, with those of the callbacks run inside. */
  function CallsAccept(c: Conn, ks: seq<Call>): string
    requires ValidCalls(ks)
    decreases ks, 0
  {
    if ks == [] then "" else CallAccepts(c, ks[0]) + CallsAccept(CallStep(c, ks[0]), ks[1..])
  }

  function CallAccepts(c: Conn, k: Call): string
    requires ValidCall(k)
    decreases k, 1
  {
    match k
    case CallShutdown => ""
    case CallSend(data, w, calls) =>
      var idle := !c.writing && c.output == "";
      if idle && w == -1 then ""
      else if idle && w == |data| then data + CallsAccept(c.(wire := c.wire + data, accepted := c.accepted + data), calls)
      else data
  }

  lemma {:induction false} CallsAcceptExactly(c: Conn, ks: seq<Call>)
    requires ValidCalls(ks)
    ensures CallsStep(c, ks).accepted == c.accepted + CallsAccept(c, ks)
    decreases ks, 0
  {
    if ks == [] {
      assert c.accepted + "" == c.accepted;
    } else {
      CallAcceptsExactly(c, ks[0]);
      CallsAcceptExactly(CallStep(c, ks[0]), ks[1..]);
      var a, b := CallAccepts(c, ks[0]), CallsAccept(CallStep(c, ks[0]), ks[1..]);
      hide CallStep, CallAccepts;
      assert c.accepted + a + b == c.accepted + (a + b);
    }
  }

  lemma {:induction false} CallAcceptsExactly(c: Conn, k: Call)
    requires ValidCall(k)
    ensures CallStep(c, k).accepted == c.accepted + CallAccepts(c, k)
    decreases k, 1
  {
    match k
    case CallShutdown => assert c.accepted + "" == c.accepted;
    case CallSend(data, w, calls) =>
      assert c.accepted + "" == c.accepted;
      if !c.writing && c.output == "" && w == |data| {
        var c' := c.(wire := c.wire + data, accepted := c.accepted + data);
        assert data[..w] == data && SendStep(c, data, w) == c';
        CallsAcceptExactly(c', calls);
        assert c.accepted + data + CallsAccept(c', calls) == c.accepted + (data + CallsAccept(c', calls));
      }
  }

  /** A write event accepts what its callback sends, and the callback runs exactly when the write has emptied the buffer. */
  lemma HandleWriteAccepts(c: Conn, w: int, calls: seq<Call>)
    requires !c.draining && WriteResult(w, |c.output|) && ValidCalls(calls)
    ensures HandleWriteStep(c, w, calls).accepted
         == c.accepted + if c.writing && 0 < w == |c.output|
                         then CallsAccept(c.(wire := c.wire + c.output, output := "", writing := false, draining := true), calls)
                         else ""
  {
    assert c.accepted + "" == c.accepted;
    if c.writing && 0 < w == |c.output| {
      assert c.output[..w] == c.output && c.output[w..] == "";
      CallsAcceptExactly(DrainStep(c, w), calls);
    }
  }

  lemma {:induction false} CallsKeepDraining(c: Conn, ks: seq<Call>)
    requires ValidCalls(ks)
    ensures CallsStep(c, ks).draining == c.draining
    decreases ks, 0
  {
    if ks != [] {
      CallKeepsDraining(c, ks[0]);
      CallsKeepDraining(CallStep(c, ks[0]), ks[1..]);
    }
  }

  lemma {:induction false} CallKeepsDraining(c: Conn, k: Call)
    requires ValidCall(k)
    ensures CallStep(c, k).draining == c.draining
    decreases k, 1
  {
    if k.CallSend? { CallsKeepDraining(SendStep(c, k.data, k.w), k.calls); }
  }

  /** What a `handleWrite` does, callback and all, is a run of the steps, so all that holds of every run holds of
      connections whose callbacks call back in. */
  lemma HandleWriteIsRun(c: Conn, w: int, calls: seq<Call>)
    requires !c.draining && WriteResult(w, |c.output|) && ValidCalls(calls)
    ensures var drained := DrainStep(c, w);
            var es := [Drain(w)] + if drained.draining then CallsEvents(drained, calls) + [FinishDrain] else [];
            IsRun(c, es) && Run(c, es) == HandleWriteStep(c, w, calls)
  {
    var drained := DrainStep(c, w);
    if drained.draining {
      CallsAreRun(drained, calls);
      CallsKeepDraining(drained, calls);
      var last := CallsStep(drained, calls);
      Front(last, FinishDrain, []);
      assert [FinishDrain] + [] == [FinishDrain];
      RunConcat(drained, CallsEvents(drained, calls), [FinishDrain]);
      Front(c, Drain(w), CallsEvents(drained, calls) + [FinishDrain]);
    } else {
      Front(c, Drain(w), []);
    }
  }

  // ---------------------------------------------------------------- the class

  class TcpConnection {
    var state: State
    var channelWriting: bool
    const outputBuffer: Buffers.Buffer
    /** What the socket took, and how often its write side was shut. */
    var wire: string
    var shutdownWrites: nat
    ghost var accepted: string
    ghost var draining: bool

    ghost predicate Valid()
      reads this, outputBuffer
    {
      outputBuffer.Valid()
    }

    ghost function Abs(): Conn
      requires Valid()
      reads this, outputBuffer, outputBuffer.buffer
    {
      Conn(state, channelWriting, outputBuffer.Content(), wire, accepted, shutdownWrites, draining)
    }

    constructor ()
      ensures Valid() && Abs() == FRESH && fresh(outputBuffer) && fresh(outputBuffer.buffer)
    {
      state, channelWriting, wire, shutdownWrites := Connecting, false, "", 0;
      accepted, draining := "", false;
      outputBuffer := new Buffers.Buffer(Buffers.INITIAL_SIZE);
    }

    method ConnectEstablished()
      requires Valid()
      modifies this`state
      ensures Valid() && Abs() == old(Abs()).(state := Connected)
    {
      state := Connected;
    }

    /** `w` is what the socket's `write` returns, if it is called; `calls` is what the write-complete callback does,
        if it runs. */
    method Send(data: string, w: int, calls: seq<Call>)
      requires Valid() && WriteResult(w, |data|) && ValidCalls(calls)
      modifies this`state, this`channelWriting, this`wire, this`shutdownWrites, this`accepted
      modifies outputBuffer, outputBuffer.buffer
      ensures Valid() && (outputBuffer.buffer == old(outputBuffer.buffer) || fresh(outputBuffer.buffer))
      ensures Abs() == SendCalls(old(Abs()), data, w, calls)
      decreases calls, 1
    {
      hide CallsStep, ValidCall;
      var nwrote := 0;
      if !channelWriting && outputBuffer.ReadableBytes() == 0 {
        nwrote := w;
        if nwrote >= 0 {
          wire := wire + data[..nwrote];
          accepted := accepted + data;
          if nwrote == |data| {
            Callback(calls);
            return;
          }
        }
      } else {
        assert wire + data[..0] == wire;
        accepted := accepted + data;
      }
      // As an unsigned number -1 is not below the length.
      if 0 <= nwrote < |data| {
        outputBuffer.Append(data[nwrote..]);
        channelWriting := true;
      }
    }

    /** The write-complete callback. */
    method Callback(calls: seq<Call>)
      requires Valid() && ValidCalls(calls)
      modifies this`state, this`channelWriting, this`wire, this`shutdownWrites, this`accepted
      modifies outputBuffer, outputBuffer.buffer
      ensures Valid() && (outputBuffer.buffer == old(outputBuffer.buffer) || fresh(outputBuffer.buffer))
      ensures Abs() == CallsStep(old(Abs()), calls)
      decreases calls, 0
    {
      ghost var all := CallsStep(Abs(), calls);
      assert calls[0..] == calls;
      for i := 0 to |calls|
        invariant Valid() && (outputBuffer.buffer == old(outputBuffer.buffer) || fresh(outputBuffer.buffer))
        invariant CallsStep(Abs(), calls[i..]) == all
      {
        assert calls[i..][0] == calls[i] && calls[i..][1..] == calls[i + 1..] && ValidCall(calls[i]);
        match calls[i]
        case CallSend(data, w, more) => Send(data, w, more);
        case CallShutdown => Shutdown();
      }
    }

    method Shutdown()
      requires Valid()
      modifies this`state, this`shutdownWrites
      ensures Valid() && Abs() == ShutdownStep(old(Abs()))
    {
      if state == Connected {
        state := Disconnecting;
        if !channelWriting {
          shutdownWrites := shutdownWrites + 1;
        }
      }
    }

    method HandleClose()
      requires Valid()
      modifies this`state, this`channelWriting
      ensures Valid() && Abs() == old(Abs()).(state := Disconnected, writing := false)
    {
      state := Disconnected;
      channelWriting := false;
    }

    /** The write event itself: the written bytes leave the buffer, and an emptied buffer stops the writing. */
    method Drain(w: int) returns (emptied: bool)
      requires Valid() && !draining && WriteResult(w, outputBuffer.ReadableBytes())
      modifies this`wire, this`channelWriting, this`draining
      modifies outputBuffer, outputBuffer.buffer
      ensures Valid() && outputBuffer.buffer == old(outputBuffer.buffer)
      ensures Abs() == DrainStep(old(Abs()), w) && emptied == draining
    {
      emptied := false;
      if channelWriting && w > 0 {
        var sent := outputBuffer.Peek(w);
        wire := wire + sent;
        outputBuffer.Retrieve(w);
        if outputBuffer.ReadableBytes() == 0 {
          channelWriting := false;
          emptied := true;
          draining := true;
        }
      }
    }

    /** `w` is what `write` returns; `calls` is what the write-complete callback does, if it runs. */
    method HandleWrite(w: int, calls: seq<Call>)
      requires Valid() && !draining && WriteResult(w, outputBuffer.ReadableBytes()) && ValidCalls(calls)
      modifies this, outputBuffer, outputBuffer.buffer
      ensures Valid() && (outputBuffer.buffer == old(outputBuffer.buffer) || fresh(outputBuffer.buffer))
      ensures Abs() == HandleWriteStep(old(Abs()), w, calls)
    {
      var emptied := Drain(w);
      if emptied {
        Callback(calls);
        draining := false;
        if state == Disconnecting {
          shutdownWrites := shutdownWrites + 1;
        }
      }
    }
  }
}
