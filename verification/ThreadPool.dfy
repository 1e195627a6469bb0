/** The thread pool's own code: the regions executed with the mutex held, the unlocked test of the flag, and the start
    and stop of the threads, all updating one object. */
module ThreadPools {
  import opened Options
  import opened PoolSpec

  class ThreadPool {
    var queue: seq<Task>
    var running: bool
    var maxQueue: int
    /** How many threads `start` has still to create. */
    var toStart: nat
    /** Where each thread is in its loop, and where each caller of `run` is in it. */
    var threads: map<Wid, Worker>
    var callers: map<Pid, Producer>
    /** The run so far: tasks put in and taken out, in order; who took each; the positions whose task is done. */
    ghost var pushed: seq<Task>
    var taken: seq<Task>
    ghost var takenBy: seq<Wid>
    ghost var finished: set<nat>
    ghost var inline: seq<Task>
    ghost var late: map<Wid, nat>

    ghost function Abs(): State
      reads this
    {
      State(queue, running, maxQueue, toStart, threads, callers, pushed, taken, takenBy, finished, inline, late)
    }

    constructor (maxSize: int, clients: set<Pid>)
      ensures Initial(Abs()) && maxQueue == maxSize && callers.Keys == clients
    {
      queue, running, maxQueue, toStart, threads := [], false, maxSize, 0, map[];
      callers := map p | p in clients :: Outside;
      pushed, taken, takenBy, finished, inline, late := [], [], [], {}, [], map[];
    }

    /** `start` when nobody comes between: its steps are the start of the flag, then one thread after the other. */
    method Start(n: nat)
      requires Enabled(Abs(), PoolSpec.Start(n))
      modifies this
      ensures IsRun(old(Abs()), [PoolSpec.Start(n)] + Spawns(0, n))
      ensures Abs() == PoolSpec.Run(old(Abs()), [PoolSpec.Start(n)] + Spawns(0, n))
    {
      hide Enabled, Step;
      ghost var events := [PoolSpec.Start(n)] + Spawns(0, n);
      StartRuns(Abs(), n);
      ghost var all := PoolSpec.Run(Abs(), events);
      assert events[1..] == Spawns(0, n);
      BeginStart(n);
      var i := 0;
      while i < n
        invariant i <= n && IsRun(Abs(), Spawns(i, n)) && PoolSpec.Run(Abs(), Spawns(i, n)) == all
      {
        assert Spawns(i, n)[0] == PoolSpec.Spawn(i) && Spawns(i, n)[1..] == Spawns(i + 1, n);
        Spawn(i);
        i := i + 1;
      }
    }

    method BeginStart(n: nat)
      requires Enabled(Abs(), PoolSpec.Start(n))
      modifies this`running, this`toStart
      ensures Abs() == Step(old(Abs()), PoolSpec.Start(n))
    {
      running := true;
      toStart := n;
    }

    method Spawn(w: Wid)
      requires Enabled(Abs(), PoolSpec.Spawn(w))
      modifies this`toStart, this`threads, this`late
      ensures Abs() == Step(old(Abs()), PoolSpec.Spawn(w))
    {
      threads := threads[w := Looping];
      late := late[w := 0];
      toStart := toStart - 1;
    }

    /** `stop` up to the joins: the flag falls and everyone on notEmpty is woken. */
    method Stop()
      requires toStart == 0
      modifies this`running, this`threads
      ensures Abs() == StopStep(old(Abs()))
    {
      running := false;
      threads := map w | w in threads :: if threads[w].Sleeping? then Woken else threads[w];
    }

    /** Wakes one waiter, whichever, if there is any. */
    method Notify(waiters: set<nat>) returns (woken: Option<nat>)
      ensures Wakes(waiters, woken)
    {
      if waiters == {} {
        woken := None;
      } else {
        var x :| x in waiters;
        woken := Some(x);
      }
    }

    /** `notFull_.notify`. */
    method NotifyFull() returns (woken: Option<Pid>)
      modifies this`callers
      ensures Wakes(BlockedProducers(old(Abs())), woken) && Abs() == WakeProducer(old(Abs()), woken)
    {
      var sleeping := set p | p in callers && callers[p].Blocked?;
      woken := Notify(sleeping);
      if woken.Some? { callers := callers[woken.value := Signalled(TaskOf(callers[woken.value]))]; }
    }

    /** `notEmpty_.notify`. */
    method NotifyEmpty() returns (woken: Option<Wid>)
      modifies this`threads
      ensures Wakes(SleepingWorkers(old(Abs())), woken) && Abs() == WakeWorker(old(Abs()), woken)
    {
      var sleeping := set w | w in threads && threads[w].Sleeping?;
      woken := Notify(sleeping);
      if woken.Some? { threads := threads[woken.value := Woken]; }
    }

    /** `runInThread`'s unlocked test of the flag. */
    method TestRunning(w: Wid)
      requires Enabled(Abs(), Test(w))
      modifies this`threads
      ensures Abs() == TestStep(old(Abs()), w)
    {
      threads := threads[w := if running then Arriving else Exited];
    }

    /** The head of the queue goes to a thread. */
    method PopFront(w: Wid)
      requires queue != []
      modifies this
      ensures Abs() == PopStep(old(Abs()), w)
    {
      if !running && w in late { late := late[w := late[w] + 1]; }
      threads := threads[w := Working(|taken|)];
      taken, takenBy := taken + [queue[0]], takenBy + [w];
      queue := queue[1..];
    }

    /** `take`, from taking the mutex to the wait or the return. With an empty queue after a stop it returns no task. */
    method Take(w: Wid) returns (task: Option<Task>, ghost wake: Option<Pid>)
      requires w in threads && (threads[w].Arriving? || threads[w].Woken?)
      modifies this
      ensures Enabled(old(Abs()), PoolSpec.Take(w, wake)) && Abs() == TakeStep(old(Abs()), w, wake)
      ensures task == if old(queue) == [] then None else Some(old(queue)[0])
    {
      task, wake := None, None;
      if queue == [] && running {
        threads := threads[w := Sleeping];
      } else if queue != [] {
        task := Some(queue[0]);
        PopFront(w);
        if maxQueue > 0 {
          var woken := NotifyFull();
          wake := woken;
        }
      } else {
        threads := threads[w := Looping];
      }
    }

    /** The task returns, and the thread is back at its loop's test. */
    method Finish(w: Wid)
      requires Enabled(Abs(), PoolSpec.Finish(w))
      modifies this`threads, this`finished
      ensures Abs() == FinishStep(old(Abs()), w)
    {
      finished := finished + {threads[w].position};
      threads := threads[w := Looping];
    }

    method IsFull() returns (full: bool)
      ensures full == PoolSpec.IsFull(Abs())
    {
      full := maxQueue > 0 && |queue| >= maxQueue;
    }

    /** `run` up to the mutex. */
    method Run(p: Pid, task: Task) returns (ranHere: bool)
      requires Enabled(Abs(), Call(p, task))
      modifies this`callers, this`inline
      ensures Abs() == CallStep(old(Abs()), p, task) && ranHere == (threads == map[])
    {
      ranHere := |threads| == 0;
      if ranHere {
        inline := inline + [task];
      } else {
        callers := callers[p := Calling(task)];
      }
    }

    /** `run`, from taking the mutex to the wait or the return. */
    method Enqueue(p: Pid) returns (done: bool, ghost wake: Option<Wid>)
      requires p in callers && (callers[p].Calling? || callers[p].Signalled?)
      modifies this
      ensures Enabled(old(Abs()), Enter(p, wake)) && Abs() == EnterStep(old(Abs()), p, wake)
      ensures done == !PoolSpec.IsFull(old(Abs()))
    {
      var task := TaskOf(callers[p]);
      wake := None;
      var full := IsFull();
      done := !full;
      if full {
        callers := callers[p := Blocked(task)];
      } else {
        queue := queue + [task];
        pushed := pushed + [task];
        callers := callers[p := Outside];
        var woken := NotifyEmpty();
        wake := woken;
      }
    }
  }

  /** Threads i to n. */
  function Spawns(i: nat, n: nat): seq<Event>
    requires i <= n
    decreases n - i
  {
    if i == n then [] else [Spawn(i)] + Spawns(i + 1, n)
  }

  lemma {:induction false} SpawnsRun(s: State, i: nat, n: nat)
    requires i <= n && s.toStart == n - i && forall w :: w in s.workers ==> w < i
    ensures IsRun(s, Spawns(i, n))
    decreases n - i
  {
    if i < n {
      assert Spawns(i, n)[1..] == Spawns(i + 1, n);
      SpawnsRun(Step(s, Spawn(i)), i + 1, n);
    }
  }

  lemma StartRuns(s: State, n: nat)
    requires Enabled(s, Start(n))
    ensures IsRun(s, [Start(n)] + Spawns(0, n))
  {
    assert ([Start(n)] + Spawns(0, n))[1..] == Spawns(0, n);
    SpawnsRun(Step(s, Start(n)), 0, n);
  }
}
