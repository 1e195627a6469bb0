/** What every run of the thread pool keeps: no lost wakeup, no lost or duplicated task, and an orderly stop. */
module PoolProperties {
  import opened Options
  import opened PoolSpec

  /** The queue's bound, and where every pushed task is. */
  ghost predicate Conserved(s: State) {
    && s.pushed == s.taken + s.queue && |s.takenBy| == |s.taken|
    && (s.maxQueue > 0 ==> |s.queue| <= s.maxQueue)
  }

  /** If some worker sleeps while the pool runs, the others are at least as many as the queued tasks. */
  ghost predicate WorkersAwake(s: State) {
    s.running && SleepingWorkers(s) != {} ==> |s.queue| <= |AbleWorkers(s)|
  }

  /** If some producer sleeps, the signalled ones are at least as many as the free slots. */
  ghost predicate ProducersAwake(s: State) {
    BlockedProducers(s) != {} ==> s.maxQueue > 0 && s.maxQueue - |s.queue| <= |SignalledProducers(s)|
  }

  /** Workers leave only after a stop, and none sleeps after it; a stop comes after the start. */
  ghost predicate Stopping(s: State) {
    && (s.running ==> forall w :: w in s.workers ==> !s.workers[w].Exited?)
    && (!s.running ==> s.toStart == 0 && forall w :: w in s.workers ==> !s.workers[w].Sleeping?)
  }

  /** Each taken task is with the one worker that took it until it is finished. */
  ghost predicate Assigned(s: State) {
    && |s.takenBy| == |s.taken|
    && (forall i :: i in s.finished ==> i < |s.taken|)
    && (forall w :: w in s.workers && s.workers[w].Working? ==>
          var i := s.workers[w].position; i < |s.taken| && i !in s.finished && s.takenBy[i] == w)
    && (forall i :: 0 <= i < |s.taken| && i !in s.finished ==>
          s.takenBy[i] in s.workers && s.workers[s.takenBy[i]] == Working(i))
  }

  /** After a stop a worker takes at most one more task, and then only goes on to leave. */
  ghost predicate Late(s: State) {
    && s.late.Keys == s.workers.Keys
    && (s.running ==> forall w :: w in s.late ==> s.late[w] == 0)
    && (forall w :: w in s.late ==> s.late[w] <= 1)
    && (forall w :: w in s.late && s.late[w] == 1 ==> s.workers[w].Working? || s.workers[w].Looping? || s.workers[w].Exited?)
  }

  ghost predicate Inv(s: State) {
    Conserved(s) && WorkersAwake(s) && ProducersAwake(s) && Stopping(s) && Assigned(s) && Late(s)
  }

  lemma InitialHolds(s: State)
    requires Initial(s)
    ensures Inv(s)
  {
  }

  // ---------------------------------------------------------------- wakeups

  lemma SubsetSize(a: set<nat>, b: set<nat>)
    requires a <= b
    ensures |a| <= |b|
  {
    if a != {} {
      var x :| x in a;
      SubsetSize(a - {x}, b - {x});
    }
  }

  /** A change that loses no able worker and adds no task keeps the count. */
  lemma AbleGrows(s: State, s': State)
    requires WorkersAwake(s) && |s'.queue| <= |s.queue| && AbleWorkers(s) <= AbleWorkers(s')
    requires s'.running && SleepingWorkers(s') != {} ==> s.running && SleepingWorkers(s) != {}
    ensures WorkersAwake(s')
  {
    SubsetSize(AbleWorkers(s), AbleWorkers(s'));
  }

  lemma TakeWorkersAwake(s: State, w: Wid, wake: Option<Pid>)
    requires Inv(s) && Enabled(s, Take(w, wake))
    ensures WorkersAwake(TakeStep(s, w, wake))
  {
    var s' := TakeStep(s, w, wake);
    if s.queue != [] {
      assert s'.workers == s.workers[w := Working(|s.taken|)];
      assert AbleWorkers(s') == AbleWorkers(s);
      assert SleepingWorkers(s') == SleepingWorkers(s);
    }
  }

  lemma EnterWorkersAwake(s: State, p: Pid, wake: Option<Wid>)
    requires Inv(s) && Enabled(s, Enter(p, wake))
    ensures WorkersAwake(EnterStep(s, p, wake))
  {
    var s' := EnterStep(s, p, wake);
    if IsFull(s) {
      assert s'.workers == s.workers && s'.queue == s.queue;
    } else if wake.Some? {
      var w := wake.value;
      assert w in SleepingWorkers(s) && w !in AbleWorkers(s);
      assert AbleWorkers(s') == AbleWorkers(s) + {w};
    } else {
      assert s'.workers == s.workers && SleepingWorkers(s') == {};
    }
  }

  lemma SpuriousWorkersAwake(s: State, w: Wid)
    requires Inv(s) && Enabled(s, SpuriousWorker(w))
    ensures WorkersAwake(SetWorker(s, w, Woken))
  {
    var s' := SetWorker(s, w, Woken);
    assert AbleWorkers(s') == AbleWorkers(s) + {w};
    assert w in SleepingWorkers(s);
    AbleGrows(s, s');
  }

  lemma TakeProducersAwake(s: State, w: Wid, wake: Option<Pid>)
    requires Inv(s) && Enabled(s, Take(w, wake))
    ensures ProducersAwake(TakeStep(s, w, wake))
  {
    if s.queue != [] {
      if wake.Some? { SignalProducersAwake(s, TakeStep(s, w, wake), wake.value); } else { NoneBlockedAwake(s, TakeStep(s, w, wake)); }
    }
  }

  /** A pop frees one slot, and signals one sleeping producer if there is any. */
  lemma SignalProducersAwake(s: State, s': State, p: Pid)
    requires ProducersAwake(s) && p in BlockedProducers(s) && |s'.queue| == |s.queue| - 1 && s'.maxQueue == s.maxQueue
    requires s'.producers == s.producers[p := Signalled(s.producers[p].task)]
    ensures ProducersAwake(s')
  {
    assert p !in SignalledProducers(s);
    assert SignalledProducers(s') == SignalledProducers(s) + {p};
  }

  lemma NoneBlockedAwake(s: State, s': State)
    requires s'.producers == s.producers && s'.maxQueue == s.maxQueue && (s.maxQueue > 0 ==> BlockedProducers(s) == {})
    requires ProducersAwake(s)
    ensures ProducersAwake(s')
  {
    assert BlockedProducers(s') == BlockedProducers(s);
  }

  lemma EnterProducersAwake(s: State, p: Pid, wake: Option<Wid>)
    requires Inv(s) && Enabled(s, Enter(p, wake))
    ensures ProducersAwake(EnterStep(s, p, wake))
  {
    if !IsFull(s) { PushProducersAwake(s, EnterStep(s, p, wake), p); }
  }

  /** A push takes one slot; a signalled producer that pushes is one signalled producer fewer. */
  lemma PushProducersAwake(s: State, s': State, p: Pid)
    requires ProducersAwake(s) && p in s.producers && !s.producers[p].Blocked?
    requires s'.producers == s.producers[p := Outside] && |s'.queue| == |s.queue| + 1 && s'.maxQueue == s.maxQueue
    ensures ProducersAwake(s')
  {
    assert BlockedProducers(s') == BlockedProducers(s);
    var before, after := SignalledProducers(s), SignalledProducers(s');
    assert after == before - {p};
    assert p in before ==> |before - {p}| == |before| - 1;
    assert p !in before ==> before - {p} == before;
  }

  lemma SpuriousProducersAwake(s: State, p: Pid)
    requires Inv(s) && Enabled(s, SpuriousProducer(p))
    ensures ProducersAwake(Step(s, SpuriousProducer(p)))
  {
    var s' := Step(s, SpuriousProducer(p));
    assert SignalledProducers(s') == SignalledProducers(s) + {p};
    assert p in BlockedProducers(s);
    SubsetSize(SignalledProducers(s), SignalledProducers(s'));
  }

  lemma SameProducers(s: State, s': State)
    requires ProducersAwake(s) && s'.producers == s.producers && s'.queue == s.queue && s'.maxQueue == s.maxQueue
    ensures ProducersAwake(s')
  {
    assert BlockedProducers(s') == BlockedProducers(s) && SignalledProducers(s') == SignalledProducers(s);
  }

  // ---------------------------------------------------------------- every step

  lemma StartKeeps(s: State, n: nat)
    requires Inv(s) && Enabled(s, Start(n))
    ensures Inv(StartStep(s, n))
  {
    var s' := StartStep(s, n);
    SameProducers(s, s');
    assert SleepingWorkers(s') == {};
  }

  lemma SpawnKeeps(s: State, w: Wid)
    requires Inv(s) && Enabled(s, Spawn(w))
    ensures Inv(SpawnStep(s, w))
  {
    SpawnWorkersAwake(s, w);
    SpawnAssigned(s, w);
    SameProducers(s, SpawnStep(s, w));
    hide WorkersAwake, ProducersAwake, Assigned;
  }

  lemma SpawnWorkersAwake(s: State, w: Wid)
    requires WorkersAwake(s) && Enabled(s, Spawn(w))
    ensures WorkersAwake(SpawnStep(s, w))
  {
    OneMoreWorker(s, SpawnStep(s, w), w);
    AbleGrows(s, SpawnStep(s, w));
  }

  lemma OneMoreWorker(s: State, s': State, w: Wid)
    requires w !in s.workers && s'.workers == s.workers[w := Looping]
    ensures AbleWorkers(s') == AbleWorkers(s) + {w} && SleepingWorkers(s') == SleepingWorkers(s)
  {
  }

  lemma SpawnAssigned(s: State, w: Wid)
    requires Assigned(s) && Enabled(s, Spawn(w))
    ensures Assigned(SpawnStep(s, w))
  {
  }

  lemma TestKeeps(s: State, w: Wid)
    requires Inv(s) && Enabled(s, Test(w))
    ensures Inv(TestStep(s, w))
  {
    var s' := TestStep(s, w);
    SameProducers(s, s');
    assert s.running ==> AbleWorkers(s') == AbleWorkers(s) && SleepingWorkers(s') == SleepingWorkers(s);
  }

  lemma TakeKeeps(s: State, w: Wid, wake: Option<Pid>)
    requires Inv(s) && Enabled(s, Take(w, wake))
    ensures Inv(TakeStep(s, w, wake))
  {
    TakeWorkersAwake(s, w, wake);
    TakeProducersAwake(s, w, wake);
    hide WorkersAwake, ProducersAwake;
    TakeRest(s, w, wake);
  }

  lemma TakeRest(s: State, w: Wid, wake: Option<Pid>)
    requires Inv(s) && Enabled(s, Take(w, wake))
    ensures var s' := TakeStep(s, w, wake); Conserved(s') && Stopping(s') && Assigned(s') && Late(s')
  {
    TakeConserved(s, w, wake);
    TakeAssigned(s, w, wake);
    TakeLate(s, w, wake);
    hide *;
  }

  lemma TakeConserved(s: State, w: Wid, wake: Option<Pid>)
    requires Conserved(s)
    ensures Conserved(TakeStep(s, w, wake))
  {
    var s' := TakeStep(s, w, wake);
    if s.queue != [] {
      assert s.taken + s.queue == s'.taken + s'.queue;
    }
  }

  lemma TakeLate(s: State, w: Wid, wake: Option<Pid>)
    requires Late(s) && Stopping(s) && w in s.workers && (s.workers[w].Arriving? || s.workers[w].Woken?)
    ensures Late(TakeStep(s, w, wake)) && Stopping(TakeStep(s, w, wake))
  {
    TakeOnWorker(s, w, wake);
    assert w in s.late && s.late[w] == 0;
  }

  /** Only the taker's own phase changes. */
  lemma TakeOnWorker(s: State, w: Wid, wake: Option<Pid>)
    requires w in s.workers
    ensures var s' := TakeStep(s, w, wake);
            s'.workers == s.workers[w := if s.queue != [] then Working(|s.taken|) else if s.running then Sleeping else Looping]
  {
  }

  lemma TakeAssigned(s: State, w: Wid, wake: Option<Pid>)
    requires Assigned(s) && w in s.workers && (s.workers[w].Arriving? || s.workers[w].Woken?)
    ensures Assigned(TakeStep(s, w, wake))
  {
    TakeOnWorker(s, w, wake);
    var s' := TakeStep(s, w, wake);
    if s.queue != [] {
      assert s'.takenBy == s.takenBy + [w] && s'.finished == s.finished;
    }
  }

  lemma FinishKeeps(s: State, w: Wid)
    requires Inv(s) && Enabled(s, Finish(w))
    ensures Inv(FinishStep(s, w))
  {
    var s' := FinishStep(s, w);
    SameProducers(s, s');
    FinishAssigned(s, w);
    FinishWorkersAwake(s, w);
    hide Assigned, WorkersAwake, ProducersAwake;
  }

  lemma FinishAssigned(s: State, w: Wid)
    requires Assigned(s) && Enabled(s, Finish(w))
    ensures Assigned(FinishStep(s, w))
  {
  }

  lemma FinishWorkersAwake(s: State, w: Wid)
    requires WorkersAwake(s) && Enabled(s, Finish(w))
    ensures WorkersAwake(FinishStep(s, w))
  {
    var s' := FinishStep(s, w);
    assert AbleWorkers(s') == AbleWorkers(s) && SleepingWorkers(s') == SleepingWorkers(s);
  }

  lemma CallKeeps(s: State, p: Pid, task: Task)
    requires Inv(s) && Enabled(s, Call(p, task))
    ensures Inv(CallStep(s, p, task))
  {
    var s' := CallStep(s, p, task);
    assert BlockedProducers(s') == BlockedProducers(s) && SignalledProducers(s') == SignalledProducers(s);
  }

  lemma EnterKeeps(s: State, p: Pid, wake: Option<Wid>)
    requires Inv(s) && Enabled(s, Enter(p, wake))
    ensures Inv(EnterStep(s, p, wake))
  {
    EnterWorkersAwake(s, p, wake);
    EnterProducersAwake(s, p, wake);
    hide WorkersAwake, ProducersAwake;
    EnterRest(s, p, wake);
  }

  lemma EnterRest(s: State, p: Pid, wake: Option<Wid>)
    requires Inv(s) && Enabled(s, Enter(p, wake))
    ensures var s' := EnterStep(s, p, wake); Conserved(s') && Stopping(s') && Assigned(s') && Late(s')
  {
    var s' := EnterStep(s, p, wake);
    if !IsFull(s) {
      var task := TaskOf(s.producers[p]);
      assert s.taken + s.queue + [task] == s.taken + (s.queue + [task]);
      if wake.Some? {
        assert wake.value in SleepingWorkers(s);
        assert s'.workers == s.workers[wake.value := Woken];
      }
    }
  }

  lemma SpuriousKeeps(s: State, w: Wid)
    requires Inv(s) && Enabled(s, SpuriousWorker(w))
    ensures Inv(SetWorker(s, w, Woken))
  {
    SpuriousWorkersAwake(s, w);
    SameProducers(s, SetWorker(s, w, Woken));
    hide WorkersAwake, ProducersAwake;
  }

  lemma SpuriousProducerKeeps(s: State, p: Pid)
    requires Inv(s) && Enabled(s, SpuriousProducer(p))
    ensures Inv(Step(s, SpuriousProducer(p)))
  {
    SpuriousProducersAwake(s, p);
    hide WorkersAwake, ProducersAwake;
  }

  lemma StopKeeps(s: State)
    requires Inv(s) && Enabled(s, Stop)
    ensures Inv(StopStep(s))
  {
    var s' := StopStep(s);
    SameProducers(s, s');
    hide ProducersAwake;
    assert s'.workers.Keys == s.workers.Keys;
    assert forall w :: w in s.workers && s.workers[w].Working? ==> s'.workers[w] == s.workers[w];
  }

  lemma StepKeeps(s: State, e: Event)
    requires Inv(s) && Enabled(s, e)
    ensures Inv(Step(s, e))
  {
    hide Inv;
    match e
    case Start(n) => StartKeeps(s, n);
    case Spawn(w) => SpawnKeeps(s, w);
    case Test(w) => TestKeeps(s, w);
    case Take(w, wake) => TakeKeeps(s, w, wake);
    case Finish(w) => FinishKeeps(s, w);
    case Call(p, task) => CallKeeps(s, p, task);
    case Enter(p, wake) => EnterKeeps(s, p, wake);
    case SpuriousWorker(w) => SpuriousKeeps(s, w);
    case SpuriousProducer(p) => SpuriousProducerKeeps(s, p);
    case Stop => StopKeeps(s);
  }

  lemma {:induction false} RunKeeps(s: State, es: seq<Event>)
    requires Inv(s) && IsRun(s, es)
    ensures Inv(Run(s, es))
    decreases |es|
  {
    hide Inv, Step, Enabled;
    if es != [] {
      StepKeeps(s, es[0]);
      RunKeeps(Step(s, es[0]), es[1..]);
    }
  }

  // ---------------------------------------------------------------- what it means

  /** Over every run: while the pool runs and some worker sleeps, the workers that do not are at least as many as the
      queued tasks; and when some producer sleeps, the signalled ones are at least as many as the free slots. */
  lemma NoLostWakeup(s: State, es: seq<Event>)
    requires Initial(s) && IsRun(s, es)
    ensures var r := Run(s, es);
            && (r.running && SleepingWorkers(r) != {} ==> |r.queue| <= |AbleWorkers(r)|)
            && (BlockedProducers(r) != {} ==> r.maxQueue - |r.queue| <= |SignalledProducers(r)|)
  {
    InitialHolds(s);
    RunKeeps(s, es);
  }

  /** A step of some thread's own, not a wakeup without cause. */
  predicate OwnStep(e: Event) { e.Test? || e.Take? || e.Finish? || e.Enter? }

  /** One of the waiters, if there is any. */
  ghost function SomeWaiter(waiters: set<nat>): (woken: Option<nat>)
    ensures Wakes(waiters, woken)
  {
    if waiters == {} then None else var x :| x in waiters; Some(x)
  }

  /** The next step of a worker that is neither asleep nor gone. */
  ghost function NextOf(s: State, w: Wid): (e: Event)
    requires w in s.workers && s.workers[w].Able()
    ensures Enabled(s, e) && OwnStep(e)
  {
    match s.workers[w]
    case Looping => Test(w)
    case Working(_) => Finish(w)
    case _ => Take(w, SomeWaiter(if s.queue != [] && s.maxQueue > 0 then BlockedProducers(s) else {}))
  }

  /** While the pool runs with at least one worker, a queued task or a sleeping producer always leaves some thread
      able to take a step of its own. */
  lemma SomeThreadCanStep(s: State)
    requires Inv(s) && s.running && s.workers != map[]
    requires s.queue != [] || BlockedProducers(s) != {}
    ensures exists e :: Enabled(s, e) && OwnStep(e)
  {
    if s.queue != [] {
      var w := AbleWorkerFor(s);
      assert Enabled(s, NextOf(s, w)) && OwnStep(NextOf(s, w));
    } else {
      assert s.maxQueue - 0 <= |SignalledProducers(s)|;
      var p :| p in SignalledProducers(s);
      var e := Enter(p, SomeWaiter(if IsFull(s) then {} else SleepingWorkers(s)));
      assert Enabled(s, e) && OwnStep(e);
    }
  }

  lemma AbleWorkerFor(s: State) returns (w: Wid)
    requires WorkersAwake(s) && Stopping(s) && s.running && s.workers != map[] && s.queue != []
    ensures w in s.workers && s.workers[w].Able()
  {
    if SleepingWorkers(s) == {} {
      w :| w in s.workers;
      assert w !in SleepingWorkers(s);
    } else {
      w :| w in AbleWorkers(s);
    }
  }

  /** How far a worker is from its next take. */
  function Distance(x: Worker): nat {
    match x case Working(_) => 2 case Looping => 1 case _ => 0
  }

  /** Some worker's own steps, at most three, take the head of the queue. */
  lemma {:induction false} HeadGetsTaken(s: State, w: Wid) returns (es: seq<Event>)
    requires Inv(s) && s.running && w in s.workers && s.workers[w].Able() && s.queue != []
    ensures IsRun(s, es) && (forall e :: e in es ==> OwnStep(e) && !e.Enter?)
    ensures var r := Run(s, es);
            && Inv(r) && r.running && r.queue == s.queue[1..] && r.workers.Keys == s.workers.Keys
            && r.maxQueue == s.maxQueue && InsideSet(r) == InsideSet(s)
    decreases Distance(s.workers[w])
  {
    hide Inv;
    var e := NextOf(s, w);
    StepKeeps(s, e);
    var s1 := Step(s, e);
    if e.Take? {
      es := [e];
      TakeTaken(s, w, e.wake);
      assert Run(s1, []) == s1;
    } else {
      var more := HeadGetsTaken(s1, w);
      es := [e] + more;
      assert es[1..] == more;
    }
  }

  lemma TakeTaken(s: State, w: Wid, wake: Option<Pid>)
    requires s.queue != [] && w in s.workers
    ensures var r := TakeStep(s, w, wake);
            && r.queue == s.queue[1..] && r.running == s.running && r.workers.Keys == s.workers.Keys
            && r.maxQueue == s.maxQueue && InsideSet(r) == InsideSet(s)
  {
  }

  lemma {:induction false} RunConcat(s: State, a: seq<Event>, b: seq<Event>)
    requires IsRun(s, a) && IsRun(Run(s, a), b)
    ensures IsRun(s, a + b) && Run(s, a + b) == Run(Run(s, a), b)
    decreases |a|
  {
    hide Step, Enabled;
    if a == [] {
      assert a + b == b;
    } else {
      assert (a + b)[1..] == a[1..] + b;
      RunConcat(Step(s, a[0]), a[1..], b);
    }
  }

  /** From every state of a running pool with a worker, the workers' own steps can empty the queue: then every pushed
      task has been taken, in the order pushed. */
  lemma {:induction false} QueueCanDrain(s: State) returns (es: seq<Event>)
    requires Inv(s) && s.running && s.workers != map[]
    ensures IsRun(s, es) && (forall e :: e in es ==> OwnStep(e) && !e.Enter?)
    ensures var r := Run(s, es);
            && Inv(r) && r.queue == [] && r.taken == r.pushed && r.running && r.workers.Keys == s.workers.Keys
            && r.maxQueue == s.maxQueue && InsideSet(r) == InsideSet(s)
    decreases |s.queue|
  {
    if s.queue == [] {
      es := [];
    } else {
      var w := AbleWorkerFor(s);
      var first := HeadGetsTaken(s, w);
      var more := QueueCanDrain(Run(s, first));
      RunConcat(s, first, more);
      es := first + more;
    }
    assert [] + Run(s, es).taken == Run(s, es).taken;
  }

  /** Conservation over every run: what was pushed is what was taken followed by the queue, in order; the queue keeps
      its bound; a task taken at a position is being run by the worker that took it, and no other, until that worker
      finishes it. */
  lemma PoolConserves(s: State, es: seq<Event>)
    requires Initial(s) && IsRun(s, es)
    ensures var r := Run(s, es);
            && r.pushed == r.taken + r.queue
            && (r.maxQueue > 0 ==> |r.queue| <= r.maxQueue)
            && |r.takenBy| == |r.taken|
            && (forall i, w :: 0 <= i < |r.taken| && w in r.workers && r.workers[w] == Working(i) ==> w == r.takenBy[i])
            && (forall i :: 0 <= i < |r.taken| ==>
                  (i in r.finished <==> !(r.takenBy[i] in r.workers && r.workers[r.takenBy[i]] == Working(i))))
  {
    InitialHolds(s);
    RunKeeps(s, es);
  }

  /** After a stop no worker sleeps, and none takes more than one more task. */
  lemma AfterStop(s: State, es: seq<Event>)
    requires Initial(s) && IsRun(s, es) && !Run(s, es).running
    ensures var r := Run(s, es);
            && SleepingWorkers(r) == {}
            && (forall w :: w in r.workers ==> w in r.late && r.late[w] <= 1)
  {
    InitialHolds(s);
    RunKeeps(s, es);
  }

  // ---------------------------------------------------------------- the end of the threads

  predicate AllExited(s: State) {
    !s.running && s.toStart == 0 && s.workers != map[] && forall w :: w in s.workers ==> s.workers[w].Exited?
  }

  /** How far a worker is from leaving once the pool is stopped. */
  function ToGo(x: Worker): nat {
    match x case Exited => 0 case Looping => 1 case Working(_) => 2 case _ => 3
  }

  /** A worker's own step in a stopped pool brings it nearer to leaving and moves no other worker. */
  lemma OwnStepLeaves(s: State, w: Wid)
    requires Inv(s) && !s.running && w in s.workers && s.workers[w].Able()
    ensures var r := Step(s, NextOf(s, w));
            && Inv(r) && !r.running && r.workers.Keys == s.workers.Keys && ToGo(r.workers[w]) < ToGo(s.workers[w])
            && forall v :: v in s.workers && v != w ==> r.workers[v] == s.workers[v]
  {
    StepKeeps(s, NextOf(s, w));
    OwnStepNearer(s, w);
    hide *;
  }

  lemma OwnStepNearer(s: State, w: Wid)
    requires !s.running && w in s.workers && s.workers[w].Able()
    ensures var r := Step(s, NextOf(s, w));
            && !r.running && r.workers.Keys == s.workers.Keys && ToGo(r.workers[w]) < ToGo(s.workers[w])
            && forall v :: v in s.workers && v != w ==> r.workers[v] == s.workers[v]
  {
    if s.workers[w].Arriving? || s.workers[w].Woken? { TakeOnWorker(s, w, NextOf(s, w).wake); }
  }

  /** After a stop each worker can leave by its own steps alone, so the join on it can return. */
  lemma {:induction false} WorkerLeaves(s: State, w: Wid) returns (es: seq<Event>)
    requires Inv(s) && !s.running && w in s.workers
    ensures IsRun(s, es) && (forall e :: e in es ==> OwnStep(e) && !e.Enter?)
    ensures var r := Run(s, es);
            && Inv(r) && !r.running && r.workers.Keys == s.workers.Keys && r.workers[w].Exited?
            && forall v :: v in s.workers && v != w ==> r.workers[v] == s.workers[v]
    decreases ToGo(s.workers[w])
  {
    if s.workers[w].Exited? {
      es := [];
    } else {
      var e := NextOf(s, w);
      OwnStepLeaves(s, w);
      var s1 := Step(s, e);
      hide Inv, Step, Enabled;
      var more := WorkerLeaves(s1, w);
      es := [e] + more;
      assert es[1..] == more;
    }
  }

  function Remaining(s: State): set<Wid> { set w | w in s.workers && !s.workers[w].Exited? }

  /** After a stop the workers' own steps can bring every one of them out of its loop. */
  lemma {:induction false} AllCanLeave(s: State) returns (es: seq<Event>)
    requires Inv(s) && !s.running && s.workers != map[]
    ensures IsRun(s, es) && (forall e :: e in es ==> OwnStep(e) && !e.Enter?)
    ensures AllExited(Run(s, es))
    decreases Remaining(s)
  {
    hide Inv, Step, Enabled;
    if Remaining(s) == {} {
      es := [];
      AllStarted(s);
      assert forall w :: w in s.workers && !s.workers[w].Exited? ==> w in Remaining(s);
    } else {
      var w :| w in Remaining(s);
      var first := WorkerLeaves(s, w);
      var r := Run(s, first);
      assert w in r.workers && w !in Remaining(r);
      assert Remaining(r) <= Remaining(s);
      var more := AllCanLeave(r);
      RunConcat(s, first, more);
      es := first + more;
    }
  }

  lemma AllStarted(s: State)
    requires Inv(s) && !s.running
    ensures s.toStart == 0
  {
  }

  /** A caller inside `run`. */
  predicate Inside(s: State, p: Pid) { p in s.producers && !s.producers[p].Outside? }

  /** Once every thread has left, no task is ever taken again; and if the queue was full then, every caller inside
      `run` stays inside for ever: nothing wakes or releases a producer at a stop. */
  lemma {:induction false} Stranded(s: State, es: seq<Event>)
    requires AllExited(s) && IsRun(s, es)
    ensures var r := Run(s, es);
            && AllExited(r) && r.taken == s.taken
            && (IsFull(s) ==> r.queue == s.queue && IsFull(r) && forall p :: Inside(s, p) ==> Inside(r, p))
    decreases |es|
  {
    if es != [] {
      StrandedStep(s, es[0]);
      var s1 := Step(s, es[0]);
      hide Step, Enabled, AllExited, IsFull, Inside;
      Stranded(s1, es[1..]);
    }
  }

  lemma StrandedStep(s: State, e: Event)
    requires AllExited(s) && Enabled(s, e)
    ensures var r := Step(s, e);
            && AllExited(r) && r.taken == s.taken
            && (IsFull(s) ==> r.queue == s.queue && IsFull(r) && forall p :: Inside(s, p) ==> Inside(r, p))
  {
    var r := Step(s, e);
    if e.Enter? && !IsFull(s) {
      assert SleepingWorkers(s) == {};
    }
    assert r.workers == s.workers;
  }

  // ---------------------------------------------------------------- the callers

  /** With an empty queue some caller inside `run` is not asleep. */
  lemma SomeCallerAwake(s: State)
    requires ProducersAwake(s) && s.queue == [] && InsideSet(s) != {}
    ensures exists p :: p in InsideSet(s) && !s.producers[p].Blocked?
  {
    if BlockedProducers(s) == {} {
      var p :| p in InsideSet(s);
      assert p !in BlockedProducers(s);
    } else {
      var q :| q in SignalledProducers(s);
      assert q in InsideSet(s);
    }
  }

  /** A caller that is not asleep leaves by its own step when the queue has room. */
  lemma CallerLeaves(s: State, p: Pid) returns (e: Event)
    requires Inv(s) && p in InsideSet(s) && !s.producers[p].Blocked? && !IsFull(s)
    ensures Enabled(s, e) && e.Enter? && OwnStep(e)
    ensures var r := Step(s, e);
            && Inv(r) && InsideSet(r) == InsideSet(s) - {p} && |InsideSet(r)| == |InsideSet(s)| - 1
            && |r.queue| == |s.queue| + 1 && r.maxQueue == s.maxQueue && r.running == s.running
            && r.workers.Keys == s.workers.Keys
  {
    e := Enter(p, SomeWaiter(SleepingWorkers(s)));
    StepKeeps(s, e);
    hide Inv;
    var r := Step(s, e);
    assert r.producers == s.producers[p := Outside];
    assert InsideSet(r) == InsideSet(s) - {p};
  }

  /** From every state of a running pool with a worker, the threads' own steps can bring every caller out of `run`. */
  lemma {:induction false} CallersCanLeave(s: State) returns (es: seq<Event>)
    requires Inv(s) && s.running && s.workers != map[]
    ensures IsRun(s, es) && (forall e :: e in es ==> OwnStep(e)) && InsideSet(Run(s, es)) == {}
    decreases |InsideSet(s)|
  {
    hide Inv, Step, Enabled;
    if InsideSet(s) == {} {
      es := [];
    } else {
      var first := QueueCanDrain(s);
      var r := Run(s, first);
      InvAwake(r);
      SomeCallerAwake(r);
      var p :| p in InsideSet(r) && !r.producers[p].Blocked?;
      var e := CallerLeaves(r, p);
      assert r.workers.Keys != {};
      var more := CallersCanLeave(Step(r, e));
      assert ([e] + more)[1..] == more;
      RunConcat(s, first, [e] + more);
      es := first + ([e] + more);
    }
  }

  // ---------------------------------------------------------------- every schedule

  /** How far a worker is from sleep. */
  function Far(x: Worker): nat {
    match x case Working(_) => 3 case Looping => 2 case Arriving => 1 case Woken => 1 case _ => 0
  }

  function FarWorkers(s: State, k: nat): set<Wid> { set w | w in s.workers && Far(s.workers[w]) >= k }

  function AwakeCallers(s: State): set<Pid> { set p | p in s.producers && !s.producers[p].Outside? && !s.producers[p].Blocked? }

  /** Work to be done: a caller inside still has to put in a task, which then has to be taken. */
  function Work(s: State): nat { 2 * |InsideSet(s)| + |s.queue| }

  /** Steps that can be taken before some work is done. */
  function Slack(s: State): nat {
    |AwakeCallers(s)| + |FarWorkers(s, 3)| + |FarWorkers(s, 2)| + |FarWorkers(s, 1)|
  }

  function MaxSlack(s: State): nat { |s.producers.Keys| + 3 * |s.workers.Keys| }

  function Steps(s: State): nat { Work(s) * (MaxSlack(s) + 1) + Slack(s) }

  lemma SlackFits(s: State)
    ensures Slack(s) <= MaxSlack(s)
  {
    SubsetSize(AwakeCallers(s), s.producers.Keys);
    SubsetSize(FarWorkers(s, 3), s.workers.Keys);
    SubsetSize(FarWorkers(s, 2), s.workers.Keys);
    SubsetSize(FarWorkers(s, 1), s.workers.Keys);
  }

  /** One worker nearer to sleep, and all else as it was. */
  lemma WorkerNearer(s: State, r: State, w: Wid, x: Worker)
    requires w in s.workers && Far(x) + 1 == Far(s.workers[w]) && r.workers == s.workers[w := x]
    requires r.producers == s.producers && r.queue == s.queue
    ensures Work(r) == Work(s) && Slack(r) + 1 == Slack(s)
  {
    var k := Far(s.workers[w]);
    assert InsideSet(r) == InsideSet(s) && AwakeCallers(r) == AwakeCallers(s);
    assert FarWorkers(r, k) == FarWorkers(s, k) - {w};
    assert k != 1 ==> FarWorkers(r, 1) == FarWorkers(s, 1);
    assert k != 2 ==> FarWorkers(r, 2) == FarWorkers(s, 2);
    assert k != 3 ==> FarWorkers(r, 3) == FarWorkers(s, 3);
  }

  /** In a running pool each step of a thread's own does some work, or leaves fewer before the next work. */
  predicate GoesOn(s: State, r: State) {
    && r.running && r.workers.Keys == s.workers.Keys && r.producers.Keys == s.producers.Keys
    && (Work(r) < Work(s) || (Work(r) == Work(s) && Slack(r) < Slack(s)))
  }

  lemma TakeGoesOn(s: State, w: Wid, wake: Option<Pid>)
    requires s.running && Enabled(s, Take(w, wake))
    ensures GoesOn(s, TakeStep(s, w, wake))
  {
    var r := TakeStep(s, w, wake);
    TakeOnWorker(s, w, wake);
    if s.queue == [] {
      WorkerNearer(s, r, w, Sleeping);
    } else {
      assert InsideSet(r) == InsideSet(s);
    }
  }

  lemma EnterGoesOn(s: State, p: Pid, wake: Option<Wid>)
    requires s.running && Enabled(s, Enter(p, wake))
    ensures GoesOn(s, EnterStep(s, p, wake))
  {
    var r := EnterStep(s, p, wake);
    if IsFull(s) {
      assert InsideSet(r) == InsideSet(s) && AwakeCallers(r) == AwakeCallers(s) - {p};
      assert forall k :: FarWorkers(r, k) == FarWorkers(s, k);
    } else {
      assert r.producers == s.producers[p := Outside];
      assert InsideSet(r) == InsideSet(s) - {p};
    }
  }

  lemma OwnStepGoesOn(s: State, e: Event)
    requires s.running && Enabled(s, e) && OwnStep(e)
    ensures GoesOn(s, Step(s, e))
  {
    hide GoesOn, Work, Slack;
    match e
    case Test(w) => TestGoesOn(s, w);
    case Take(w, wake) => TakeGoesOn(s, w, wake);
    case Finish(w) => FinishGoesOn(s, w);
    case Enter(p, wake) => EnterGoesOn(s, p, wake);
  }

  lemma TestGoesOn(s: State, w: Wid)
    requires s.running && Enabled(s, Test(w))
    ensures GoesOn(s, TestStep(s, w))
  {
    WorkerNearer(s, TestStep(s, w), w, Arriving);
  }

  lemma FinishGoesOn(s: State, w: Wid)
    requires s.running && Enabled(s, Finish(w))
    ensures GoesOn(s, FinishStep(s, w))
  {
    WorkerNearer(s, FinishStep(s, w), w, Looping);
  }

  lemma Rows(a: nat, b: nat, k: nat)
    requires a < b
    ensures a * k + k <= b * k
  {
    Product(b - a - 1, k);
    Sum(a + 1, b - a - 1, k);
    Sum(a, 1, k);
  }

  lemma Product(a: nat, k: nat)
    ensures a * k >= 0
  {
  }

  lemma Sum(a: nat, b: nat, k: nat)
    ensures (a + b) * k == a * k + b * k
  {
  }

  lemma Lexicographic(work: nat, slack: nat, work': nat, slack': nat, max: nat)
    requires slack' <= max && (work' < work || (work' == work && slack' < slack))
    ensures work' * (max + 1) + slack' < work * (max + 1) + slack
  {
    if work' < work { Rows(work', work, max + 1); }
  }

  /** However the threads are scheduled and whoever is woken, they can take no more than this many steps of their own. */
  lemma {:induction false} ScheduleEnds(s: State, es: seq<Event>)
    requires Inv(s) && s.running && IsRun(s, es) && forall e :: e in es ==> OwnStep(e)
    ensures |es| + Steps(Run(s, es)) <= Steps(s)
    ensures var r := Run(s, es); Inv(r) && r.running && r.workers.Keys == s.workers.Keys
    decreases |es|
  {
    hide Inv, Step, Enabled, Work, Slack;
    if es != [] {
      var r := Step(s, es[0]);
      assert OwnStep(es[0]);
      StepKeeps(s, es[0]);
      OwnStepGoesOn(s, es[0]);
      SlackFits(r);
      Lexicographic(Work(s), Slack(s), Work(r), Slack(r), MaxSlack(s));
      ScheduleEnds(r, es[1..]);
    }
  }

  /** As long as a task is queued or a caller is inside `run`, some thread of a running pool has a step of its own. */
  lemma SomethingToDo(s: State) returns (e: Event)
    requires Inv(s) && s.running && s.workers != map[] && (s.queue != [] || InsideSet(s) != {})
    ensures Enabled(s, e) && OwnStep(e)
  {
    if s.queue != [] {
      var w := AbleWorkerFor(s);
      e := NextOf(s, w);
    } else {
      SomeCallerAwake(s);
      var p :| p in InsideSet(s) && !s.producers[p].Blocked?;
      e := CallerLeaves(s, p);
    }
  }

  lemma StuckIsDone(s: State)
    requires Inv(s) && s.running && s.workers != map[] && forall e :: OwnStep(e) ==> !Enabled(s, e)
    ensures s.queue == [] && InsideSet(s) == {}
  {
    if s.queue != [] || InsideSet(s) != {} {
      var e := SomethingToDo(s);
    }
  }

  /** Every schedule of a running pool with a worker, whoever is woken each time: as long as nothing new comes from outside
      it is at most `Steps(s)` long, and when no thread can go on, every task put in has been taken, in order, and every
      caller is out of `run`. */
  lemma EveryScheduleDrains(s: State, es: seq<Event>)
    requires Inv(s) && s.running && s.workers != map[]
    requires IsRun(s, es) && forall e :: e in es ==> OwnStep(e)
    ensures var r := Run(s, es);
            && |es| <= Steps(s)
            && ((forall e :: OwnStep(e) ==> !Enabled(r, e)) ==> r.queue == [] && InsideSet(r) == {} && r.taken == r.pushed)
  {
    ScheduleEnds(s, es);
    var r := Run(s, es);
    assert s.workers.Keys != {};
    if forall e :: OwnStep(e) ==> !Enabled(r, e) {
      StuckIsDone(r);
      AllTaken(r);
    }
  }

  lemma AllTaken(s: State)
    requires Inv(s) && s.queue == []
    ensures s.taken == s.pushed
  {
    assert s.taken + [] == s.taken;
  }

  lemma InvAwake(s: State)
    requires Inv(s)
    ensures ProducersAwake(s)
  {
  }

  /** Once every thread has left, callers and queued tasks together never become fewer. */
  lemma {:induction false} CrowdStays(s: State, es: seq<Event>)
    requires Inv(s) && AllExited(s) && IsRun(s, es)
    ensures var r := Run(s, es);
            |InsideSet(r)| + |r.queue| >= |InsideSet(s)| + |s.queue| && r.maxQueue == s.maxQueue
            && (r.maxQueue > 0 ==> |r.queue| <= r.maxQueue)
    decreases |es|
  {
    if es != [] {
      StepKeeps(s, es[0]);
      StrandedStep(s, es[0]);
      CrowdStep(s, es[0]);
      hide Inv, AllExited, Step, Enabled, InsideSet;
      CrowdStays(Step(s, es[0]), es[1..]);
    }
  }

  lemma CrowdStep(s: State, e: Event)
    requires AllExited(s) && Enabled(s, e)
    ensures var r := Step(s, e); |InsideSet(r)| + |r.queue| >= |InsideSet(s)| + |s.queue| && r.maxQueue == s.maxQueue
  {
    var r := Step(s, e);
    match e
    case Call(p, task) =>
      assert InsideSet(r) == InsideSet(s) + {p};
    case Enter(p, wake) =>
      if IsFull(s) {
        assert InsideSet(r) == InsideSet(s);
      } else {
        assert SleepingWorkers(s) == {} && r.producers == s.producers[p := Outside];
        assert InsideSet(r) == InsideSet(s) - {p};
      }
    case SpuriousProducer(p) => assert InsideSet(r) == InsideSet(s);
    case _ =>
  }

  /** With room for all callers inside none of them is asleep. */
  lemma NoneBlocked(s: State)
    requires ProducersAwake(s) && (s.maxQueue <= 0 || |InsideSet(s)| + |s.queue| <= s.maxQueue)
    ensures BlockedProducers(s) == {}
  {
    if BlockedProducers(s) != {} {
      var p :| p in BlockedProducers(s);
      assert SignalledProducers(s) <= InsideSet(s) - {p};
      SubsetSize(SignalledProducers(s), InsideSet(s) - {p});
    }
  }

  lemma {:induction false} LetOut(s: State) returns (es: seq<Event>)
    requires Inv(s) && AllExited(s) && (s.maxQueue <= 0 || |InsideSet(s)| + |s.queue| <= s.maxQueue)
    ensures IsRun(s, es) && InsideSet(Run(s, es)) == {}
    decreases |InsideSet(s)|
  {
    if InsideSet(s) == {} {
      es := [];
    } else {
      InvAwake(s);
      NoneBlocked(s);
      var p :| p in InsideSet(s);
      assert p !in BlockedProducers(s);
      var e := CallerLeaves(s, p);
      StrandedStep(s, e);
      hide Inv, AllExited, Step, Enabled, InsideSet;
      var more := LetOut(Step(s, e));
      es := [e] + more;
      assert es[1..] == more;
    }
  }

  /** Once every thread has left, all callers can still get out of `run` exactly when the queue is unbounded or has room
      for all of them. Nothing else will ever let one of them go. */
  lemma CallersLeaveExactly(s: State)
    requires Inv(s) && AllExited(s)
    ensures (exists es :: IsRun(s, es) && InsideSet(Run(s, es)) == {})
        <==> s.maxQueue <= 0 || |InsideSet(s)| + |s.queue| <= s.maxQueue
  {
    if s.maxQueue <= 0 || |InsideSet(s)| + |s.queue| <= s.maxQueue {
      var es := LetOut(s);
      assert IsRun(s, es) && InsideSet(Run(s, es)) == {};
    } else {
      forall es | IsRun(s, es) ensures InsideSet(Run(s, es)) != {} {
        CrowdStays(s, es);
      }
    }
  }

  lemma Front(s: State, e: Event, es: seq<Event>)
    requires Enabled(s, e) && IsRun(Step(s, e), es)
    ensures IsRun(s, [e] + es) && Run(s, [e] + es) == Run(Step(s, e), es)
  {
    assert ([e] + es)[1..] == es;
  }

  /** A pool of one thread and one place, not started yet, and two callers. */
  const SMALL_POOL := State([], false, 1, 0, map[], map[0 := Outside, 1 := Outside], [], [], [], {}, [], map[])

  const SMALL_RUN := [Start(1), Spawn(0), Call(0, 7), Enter(0, None)] + [Call(1, 8), Enter(1, None), Stop, Test(0)]

  const HALF_WAY := State([7], true, 1, 0, map[0 := Looping], map[0 := Outside, 1 := Outside], [7], [], [], {}, [], map[0 := 0])

  /** The second caller waits for room, the pool is stopped, the thread leaves: the queued task is never taken, and the
      caller never returns. */
  lemma CallerStranded(more: seq<Event>)
    ensures Initial(SMALL_POOL) && IsRun(SMALL_POOL, SMALL_RUN)
    ensures var r := Run(SMALL_POOL, SMALL_RUN);
            && AllExited(r) && r.queue == [7] && r.taken == []
            && (IsRun(r, more) ==> Inside(Run(r, more), 1) && Run(r, more).queue == [7])
  {
    var r := SmallRun();
    InitialHolds(SMALL_POOL);
    if IsRun(r, more) {
      assert Inside(r, 1) && IsFull(r);
      Stranded(r, more);
    }
  }

  lemma SmallRun() returns (r: State)
    ensures IsRun(SMALL_POOL, SMALL_RUN) && Run(SMALL_POOL, SMALL_RUN) == r
    ensures AllExited(r) && r.queue == [7] && r.taken == [] && r.maxQueue == 1 && r.producers == map[0 := Outside, 1 := Blocked(8)]
  {
    FirstHalf();
    r := SecondHalf();
    hide Step, Enabled;
    RunConcat(SMALL_POOL, [Start(1), Spawn(0), Call(0, 7), Enter(0, None)], [Call(1, 8), Enter(1, None), Stop, Test(0)]);
  }

  lemma Four(s: State, a: Event, b: Event, c: Event, d: Event)
    requires Enabled(s, a) && Enabled(Step(s, a), b)
    requires var s2 := Step(Step(s, a), b); Enabled(s2, c) && Enabled(Step(s2, c), d)
    ensures IsRun(s, [a, b, c, d]) && Run(s, [a, b, c, d]) == Step(Step(Step(Step(s, a), b), c), d)
  {
    hide Step, Enabled;
    var s1 := Step(s, a);
    var s2 := Step(s1, b);
    var s3 := Step(s2, c);
    Front(s3, d, []);
    Front(s2, c, [d] + []);
    Front(s1, b, [c] + ([d] + []));
    Front(s, a, [b] + ([c] + ([d] + [])));
    assert [a] + ([b] + ([c] + ([d] + []))) == [a, b, c, d];
  }

  lemma FirstHalf()
    ensures var es := [Start(1), Spawn(0), Call(0, 7), Enter(0, None)];
            IsRun(SMALL_POOL, es) && Run(SMALL_POOL, es) == HALF_WAY
  {
    var s1 := Step(SMALL_POOL, Start(1));
    var s2 := Step(s1, Spawn(0));
    var s3 := Step(s2, Call(0, 7));
    assert s3.workers == map[0 := Looping] && s3.producers == map[0 := Calling(7), 1 := Outside];
    assert SleepingWorkers(s3) == {};
    var s4 := Step(s3, Enter(0, None));
    assert s4.producers == HALF_WAY.producers && s4.late == HALF_WAY.late;
    Four(SMALL_POOL, Start(1), Spawn(0), Call(0, 7), Enter(0, None));
  }

  lemma SecondHalf() returns (r: State)
    ensures var es := [Call(1, 8), Enter(1, None), Stop, Test(0)]; IsRun(HALF_WAY, es) && Run(HALF_WAY, es) == r
    ensures AllExited(r) && r.queue == [7] && r.taken == [] && r.maxQueue == 1 && r.producers == map[0 := Outside, 1 := Blocked(8)]
  {
    assert 0 in HALF_WAY.workers;
    var s5 := Step(HALF_WAY, Call(1, 8));
    assert s5.producers == map[0 := Outside, 1 := Calling(8)];
    var s6 := Step(s5, Enter(1, None));
    assert s6.producers == map[0 := Outside, 1 := Blocked(8)];
    var s7 := Step(s6, Stop);
    assert s7.workers == map[0 := Looping];
    r := Step(s7, Test(0));
    assert r.workers == map[0 := Exited];
    Four(HALF_WAY, Call(1, 8), Enter(1, None), Stop, Test(0));
  }
}
