/** The thread pool against the calls made on it: with its mutex, waits and wakeups it is a plain bounded queue of the
    tasks handed to `run`. */
module PoolHistory {
  import opened Options
  import opened PoolSpec
  import PoolProperties

  // ---------------------------------------------------------------- the tasks handed in

  /** The tasks of the calls whose caller has since left `run`, in order of leaving. `inside` has the task of each call
      that went past the test for threads. */
  function Left(s: State, es: seq<Event>, inside: map<Pid, Task>): seq<Task>
    requires IsRun(s, es)
    decreases |es|
  {
    if es == [] then []
    else
      var s' := Step(s, es[0]);
      match es[0]
      case Call(p, task) => Left(s', es[1..], if s.workers == map[] then inside else inside[p := task])
      case Enter(p, _) =>
        (if p in inside && p in s'.producers && s'.producers[p].Outside? then [inside[p]] else []) + Left(s', es[1..], inside)
      case _ => Left(s', es[1..], inside)
  }

  /** The tasks of the calls made while there were no threads, in order. */
  function Unthreaded(s: State, es: seq<Event>): seq<Task>
    requires IsRun(s, es)
    decreases |es|
  {
    if es == [] then []
    else (if es[0].Call? && s.workers == map[] then [es[0].task] else []) + Unthreaded(Step(s, es[0]), es[1..])
  }

  /** A caller inside `run` has its own call's task, wherever it is in it. */
  ghost predicate Carried(s: State, inside: map<Pid, Task>) {
    forall p :: p in s.producers && !s.producers[p].Outside? ==>
      p in inside && (s.producers[p] == Calling(inside[p]) || s.producers[p] == Blocked(inside[p]) || s.producers[p] == Signalled(inside[p]))
  }

  function Carry(s: State, e: Event, inside: map<Pid, Task>): map<Pid, Task> {
    if e.Call? && s.workers != map[] then inside[e.p := e.task] else inside
  }

  /** What the step adds to the tasks put in and to those run by their callers. */
  ghost predicate HandsOver(s: State, e: Event, s': State, inside: map<Pid, Task>) {
    && s'.pushed == (if e.Enter? && e.p in inside && e.p in s'.producers && s'.producers[e.p].Outside? then s.pushed + [inside[e.p]] else s.pushed)
    && s'.inline == (if e.Call? && s.workers == map[] then s.inline + [e.task] else s.inline)
  }

  lemma CarriedOn(s: State, e: Event, inside: map<Pid, Task>)
    requires Enabled(s, e) && Carried(s, inside)
    ensures Carried(Step(s, e), Carry(s, e, inside)) && HandsOver(s, e, Step(s, e), inside)
  {
    match e
    case Take(w, wake) => TakeCarried(s, w, wake, inside);
    case Enter(p, wake) => EnterCarried(s, p, wake, inside);
    case Call(p, task) => CallCarried(s, p, task, inside);
    case SpuriousProducer(p) => assert s.producers[p] == Blocked(inside[p]);
    case _ => OthersCarried(s, e, inside);
  }

  lemma TakeCarried(s: State, w: Wid, wake: Option<Pid>, inside: map<Pid, Task>)
    requires Enabled(s, Take(w, wake)) && Carried(s, inside)
    ensures Carried(TakeStep(s, w, wake), inside) && HandsOver(s, Take(w, wake), TakeStep(s, w, wake), inside)
  {
  }

  lemma EnterCarried(s: State, p: Pid, wake: Option<Wid>, inside: map<Pid, Task>)
    requires Enabled(s, Enter(p, wake)) && Carried(s, inside)
    ensures Carried(EnterStep(s, p, wake), inside) && HandsOver(s, Enter(p, wake), EnterStep(s, p, wake), inside)
  {
  }

  lemma CallCarried(s: State, p: Pid, task: Task, inside: map<Pid, Task>)
    requires Enabled(s, Call(p, task)) && Carried(s, inside)
    ensures Carried(CallStep(s, p, task), Carry(s, Call(p, task), inside)) && HandsOver(s, Call(p, task), CallStep(s, p, task), inside)
  {
  }

  lemma OthersCarried(s: State, e: Event, inside: map<Pid, Task>)
    requires Enabled(s, e) && Carried(s, inside) && (e.Start? || e.Spawn? || e.Test? || e.Finish? || e.SpuriousWorker? || e.Stop?)
    ensures Carried(Step(s, e), inside) && HandsOver(s, e, Step(s, e), inside)
  {
    assert Step(s, e).producers == s.producers;
  }

  lemma {:induction false} LeftRun(s: State, es: seq<Event>, inside: map<Pid, Task>)
    requires IsRun(s, es) && Carried(s, inside)
    ensures Run(s, es).pushed == s.pushed + Left(s, es, inside)
    decreases |es|
  {
    hide Step, Enabled, Carried;
    if es != [] {
      CarriedOn(s, es[0], inside);
      LeftRun(Step(s, es[0]), es[1..], Carry(s, es[0], inside));
    }
  }

  lemma {:induction false} UnthreadedRun(s: State, es: seq<Event>, inside: map<Pid, Task>)
    requires IsRun(s, es) && Carried(s, inside)
    ensures Run(s, es).inline == s.inline + Unthreaded(s, es)
    decreases |es|
  {
    hide Step, Enabled, Carried;
    if es != [] {
      CarriedOn(s, es[0], inside);
      UnthreadedRun(Step(s, es[0]), es[1..], Carry(s, es[0], inside));
    }
  }

  /** Over every run: the tasks put in the queue are those of the calls whose caller has left `run`, one for each and in
      order of leaving, however often a caller waited or was woken; the tasks run by callers are those of the calls
      made without threads; and what was put in is what was taken followed by the queue. */
  lemma EveryTaskHandedOver(s: State, es: seq<Event>)
    requires Initial(s) && IsRun(s, es)
    ensures var r := Run(s, es);
            && r.taken + r.queue == r.pushed == Left(s, es, map[])
            && r.inline == Unthreaded(s, es)
  {
    assert Carried(s, map[]);
    LeftRun(s, es, map[]);
    UnthreadedRun(s, es, map[]);
    PoolProperties.PoolConserves(s, es);
  }

  // ---------------------------------------------------------------- the bounded queue

  /** A bounded queue without a mutex: who is inside `put` with what, and the threads ordered and created. */
  datatype Fifo = Fifo(bound: int, inside: map<Pid, Task>, queue: seq<Task>, taken: seq<Task>, inline: seq<Task>,
                       running: bool, ordered: nat, created: nat)

  function FifoStep(f: Fifo, e: Event): Fifo {
    match e
    case Start(n) => f.(running := true, ordered := f.ordered + n)
    case Spawn(_) => f.(created := f.created + 1)
    case Stop => f.(running := false)
    case Call(p, task) => if f.created == 0 then f.(inline := f.inline + [task]) else f.(inside := f.inside[p := task])
    case Enter(p, _) =>
      if p in f.inside && (f.bound <= 0 || |f.queue| < f.bound)
      then f.(queue := f.queue + [f.inside[p]], inside := f.inside - {p}) else f
    case Take(_, _) => if f.queue == [] then f else f.(queue := f.queue[1..], taken := f.taken + [f.queue[0]])
    case Test(_) => f
    case Finish(_) => f
    case SpuriousWorker(_) => f
    case SpuriousProducer(_) => f
  }

  function FifoRun(f: Fifo, es: seq<Event>): Fifo
    decreases |es|
  {
    if es == [] then f else FifoRun(FifoStep(f, es[0]), es[1..])
  }

  ghost predicate SameQueue(s: State, f: Fifo) {
    f.bound == s.maxQueue && f.queue == s.queue && f.taken == s.taken && f.inline == s.inline && f.running == s.running
  }

  ghost predicate SameThreads(s: State, f: Fifo) {
    f.created == |s.workers.Keys| && f.ordered == |s.workers.Keys| + s.toStart
  }

  ghost predicate SameInside(s: State, f: Fifo) {
    (forall p :: p in f.inside <==> PoolProperties.Inside(s, p)) && Carried(s, f.inside)
  }

  ghost predicate IsFifo(s: State, f: Fifo) { SameQueue(s, f) && SameThreads(s, f) && SameInside(s, f) }

  lemma NoThreads(s: State, f: Fifo)
    requires SameThreads(s, f)
    ensures f.created == 0 <==> s.workers == map[]
  {
    if s.workers != map[] {
      var w :| w in s.workers;
      assert w in s.workers.Keys;
    }
  }

  /** Only `start`'s loop makes threads. */
  lemma KeysStay(s: State, e: Event)
    requires Enabled(s, e) && !e.Spawn? && !e.Start?
    ensures Step(s, e).workers.Keys == s.workers.Keys && Step(s, e).toStart == s.toStart
  {
    match e
    case Take(w, wake) => TakeKeys(s, w, wake);
    case Enter(p, wake) => EnterKeys(s, p, wake);
    case Test(w) => assert TestStep(s, w).workers.Keys == s.workers.Keys;
    case Finish(w) => assert FinishStep(s, w).workers.Keys == s.workers.Keys;
    case SpuriousWorker(w) => assert SetWorker(s, w, Woken).workers.Keys == s.workers.Keys;
    case Stop => assert StopStep(s).workers.Keys == s.workers.Keys;
    case Call(_, _) =>
    case SpuriousProducer(_) =>
  }

  lemma TakeKeys(s: State, w: Wid, wake: Option<Pid>)
    requires Enabled(s, Take(w, wake))
    ensures TakeStep(s, w, wake).workers.Keys == s.workers.Keys && TakeStep(s, w, wake).toStart == s.toStart
  {
  }

  lemma EnterKeys(s: State, p: Pid, wake: Option<Wid>)
    requires Enabled(s, Enter(p, wake))
    ensures EnterStep(s, p, wake).workers.Keys == s.workers.Keys && EnterStep(s, p, wake).toStart == s.toStart
  {
  }

  lemma ThreadsStep(s: State, f: Fifo, e: Event)
    requires Enabled(s, e) && SameThreads(s, f)
    ensures SameThreads(Step(s, e), FifoStep(f, e))
  {
    if e.Start? {
      StartThreads(s, f, e.n);
    } else if e.Spawn? {
      SpawnThreads(s, f, e.w);
    } else {
      KeysStay(s, e);
      hide Step, Enabled;
    }
  }

  lemma StartThreads(s: State, f: Fifo, n: nat)
    requires Enabled(s, Start(n)) && SameThreads(s, f)
    ensures SameThreads(StartStep(s, n), FifoStep(f, Start(n)))
  {
  }

  lemma SpawnThreads(s: State, f: Fifo, w: Wid)
    requires s.toStart > 0 && w !in s.workers && SameThreads(s, f)
    ensures SameThreads(SpawnStep(s, w), FifoStep(f, Spawn(w)))
  {
    assert s.workers[w := Looping].Keys == s.workers.Keys + {w};
  }

  lemma QueueStep(s: State, f: Fifo, e: Event)
    requires Enabled(s, e) && SameQueue(s, f) && SameInside(s, f) && (f.created == 0 <==> s.workers == map[])
    ensures SameQueue(Step(s, e), FifoStep(f, e))
  {
    if e.Enter? {
      assert PoolProperties.Inside(s, e.p);
    }
  }

  lemma InsideStep(s: State, f: Fifo, e: Event)
    requires Enabled(s, e) && SameQueue(s, f) && SameInside(s, f) && (f.created == 0 <==> s.workers == map[])
    ensures SameInside(Step(s, e), FifoStep(f, e))
  {
    if e.Enter? {
      EnterInside(s, f, e.p, e.wake);
    } else {
      CarriedOn(s, e, f.inside);
      InsideStays(s, e);
      hide Carried, Step;
    }
  }

  /** Only a call and the end of `run` change who is inside. */
  lemma InsideStays(s: State, e: Event)
    requires Enabled(s, e) && !e.Enter?
    ensures forall p :: PoolProperties.Inside(Step(s, e), p) <==>
                PoolProperties.Inside(s, p) || (e.Call? && e.p == p && s.workers != map[])
  {
    if e.Take? { TakeInside(s, e.w, e.wake); }
  }

  lemma TakeInside(s: State, w: Wid, wake: Option<Pid>)
    requires Enabled(s, Take(w, wake))
    ensures forall p :: PoolProperties.Inside(TakeStep(s, w, wake), p) <==> PoolProperties.Inside(s, p)
  {
  }

  lemma EnterInside(s: State, f: Fifo, p: Pid, wake: Option<Wid>)
    requires Enabled(s, Enter(p, wake)) && SameQueue(s, f) && SameInside(s, f)
    ensures SameInside(EnterStep(s, p, wake), FifoStep(f, Enter(p, wake)))
  {
    var s' := EnterStep(s, p, wake);
    assert s'.producers == s.producers[p := s'.producers[p]];
  }

  lemma FifoStepSame(s: State, f: Fifo, e: Event)
    requires Enabled(s, e) && IsFifo(s, f)
    ensures IsFifo(Step(s, e), FifoStep(f, e))
  {
    hide Enabled, Step, FifoStep, SameQueue, SameThreads, SameInside;
    NoThreads(s, f);
    ThreadsStep(s, f, e);
    QueueStep(s, f, e);
    InsideStep(s, f, e);
  }

  lemma {:induction false} FifoRunSame(s: State, f: Fifo, es: seq<Event>)
    requires IsRun(s, es) && IsFifo(s, f)
    ensures IsFifo(Run(s, es), FifoRun(f, es))
    decreases |es|
  {
    hide Step, Enabled, IsFifo;
    if es != [] {
      FifoStepSame(s, f, es[0]);
      FifoRunSame(Step(s, es[0]), FifoStep(f, es[0]), es[1..]);
    }
  }

  /** Every run of the pool, with its waits, signals and wakeups without cause, is the run of the bounded queue. */
  lemma PoolIsFifo(s: State, es: seq<Event>)
    requires Initial(s) && IsRun(s, es)
    ensures var r := Run(s, es);
            var f := FifoRun(Fifo(s.maxQueue, map[], [], [], [], false, 0, 0), es);
            && r.queue == f.queue && r.taken == f.taken && r.inline == f.inline && r.running == f.running
            && |r.workers.Keys| == f.created && f.created + r.toStart == f.ordered
            && (forall p :: PoolProperties.Inside(r, p) <==> p in f.inside)
  {
    FifoRunSame(s, Fifo(s.maxQueue, map[], [], [], [], false, 0, 0), es);
  }
}
