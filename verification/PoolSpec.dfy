/** The thread pool as a transition system: any number of workers and producers around one mutex and two condition
    variables. A step is a region executed with the mutex held, the unlocked test of `running_`, or a wakeup without
    cause. A waiter that was woken must take the mutex again and repeat its test. */
module PoolSpec {
  import opened Options

  type Task = nat
  type Wid = nat
  type Pid = nat

  /** About to test `running_`; past the test; waiting on notEmpty; woken from it; running the task taken at a
      position; left the loop. */
  datatype Worker = Looping | Arriving | Sleeping | Woken | Working(position: nat) | Exited {
    predicate Able() { !Sleeping? && !Exited? }
  }

  /** Outside `run`; past the test for threads; waiting on notFull; woken from it. */
  datatype Producer = Outside | Calling(task: Task) | Blocked(task: Task) | Signalled(task: Task)

  /** `toStart` threads are still to be created by `start`. From `pushed` on it is history: tasks put in and taken out, in
      order; who took each; positions whose task is done; tasks run by their callers; what each worker took after a
      stop. */
  datatype State = State(
    queue: seq<Task>, running: bool, maxQueue: int, toStart: nat,
    workers: map<Wid, Worker>, producers: map<Pid, Producer>,
    pushed: seq<Task>, taken: seq<Task>, takenBy: seq<Wid>, finished: set<nat>, inline: seq<Task>,
    late: map<Wid, nat>)

  ghost predicate Initial(s: State) {
    s.queue == [] && !s.running && s.toStart == 0 && s.workers == map[] && (forall p :: p in s.producers ==> s.producers[p].Outside?)
    && s.pushed == [] && s.taken == [] && s.takenBy == [] && s.finished == {} && s.inline == [] && s.late == map[]
  }

  predicate IsFull(s: State) { s.maxQueue > 0 && |s.queue| >= s.maxQueue }

  function SleepingWorkers(s: State): set<Wid> { set w | w in s.workers && s.workers[w].Sleeping? }

  function AbleWorkers(s: State): set<Wid> { set w | w in s.workers && s.workers[w].Able() }

  function BlockedProducers(s: State): set<Pid> { set p | p in s.producers && s.producers[p].Blocked? }

  function SignalledProducers(s: State): set<Pid> { set p | p in s.producers && s.producers[p].Signalled? }

  /** `notify` wakes one waiter if there is any. */
  predicate Wakes(waiters: set<nat>, woken: Option<nat>) {
    if waiters == {} then woken.None? else woken.Some? && woken.value in waiters
  }

  function InsideSet(s: State): set<Pid> { set p | p in s.producers && !s.producers[p].Outside? }

  datatype Event =
    | Start(n: nat)
    | Spawn(w: Wid)
    | Test(w: Wid)
    | Take(w: Wid, wake: Option<Pid>)
    | Finish(w: Wid)
    | Call(p: Pid, task: Task)
    | Enter(p: Pid, wake: Option<Wid>)
    | SpuriousWorker(w: Wid)
    | SpuriousProducer(p: Pid)
    | Stop

  predicate Enabled(s: State, e: Event) {
    match e
    case Start(n) => s.workers == map[] && !s.running && s.queue == [] && s.toStart == 0
    case Spawn(w) => s.toStart > 0 && w !in s.workers
    case Test(w) => w in s.workers && s.workers[w].Looping?
    case Take(w, wake) =>
      && w in s.workers && (s.workers[w].Arriving? || s.workers[w].Woken?)
      && Wakes(if s.queue != [] && s.maxQueue > 0 then BlockedProducers(s) else {}, wake)
    case Finish(w) => w in s.workers && s.workers[w].Working?
    case Call(p, _) => p in s.producers && s.producers[p].Outside?
    case Enter(p, wake) =>
      && p in s.producers && (s.producers[p].Calling? || s.producers[p].Signalled?)
      && Wakes(if IsFull(s) then {} else SleepingWorkers(s), wake)
    case SpuriousWorker(w) => w in s.workers && s.workers[w].Sleeping?
    case SpuriousProducer(p) => p in s.producers && s.producers[p].Blocked?
    case Stop => s.toStart == 0
  }

  function SetWorker(s: State, w: Wid, x: Worker): State { s.(workers := s.workers[w := x]) }

  function SetProducer(s: State, p: Pid, x: Producer): State { s.(producers := s.producers[p := x]) }

  function WakeWorker(s: State, wake: Option<Wid>): State {
    if wake.Some? then SetWorker(s, wake.value, Woken) else s
  }

  function WakeProducer(s: State, wake: Option<Pid>): State {
    if wake.Some? && wake.value in s.producers && s.producers[wake.value].Blocked?
    then SetProducer(s, wake.value, Signalled(s.producers[wake.value].task)) else s
  }

  /** `start` up to its loop. */
  function StartStep(s: State, n: nat): State { s.(running := true, toStart := n) }

  /** One thread is created; it may run before the next. */
  function SpawnStep(s: State, w: Wid): State
    requires s.toStart > 0
  {
    s.(toStart := s.toStart - 1, workers := s.workers[w := Looping], late := s.late[w := 0])
  }

  function TestStep(s: State, w: Wid): State { SetWorker(s, w, if s.running then Arriving else Exited) }

  /** The head of the queue goes to a worker. */
  function PopStep(s: State, w: Wid): State
    requires s.queue != []
  {
    SetWorker(
      s.(queue := s.queue[1..], taken := s.taken + [s.queue[0]], takenBy := s.takenBy + [w],
         late := if s.running || w !in s.late then s.late else s.late[w := s.late[w] + 1]),
      w, Working(|s.taken|))
  }

  /** `take`, from the mutex to the wait or the return. */
  function TakeStep(s: State, w: Wid, wake: Option<Pid>): State {
    if s.queue == [] then SetWorker(s, w, if s.running then Sleeping else Looping)
    else WakeProducer(PopStep(s, w), wake)
  }

  function FinishStep(s: State, w: Wid): State
    requires w in s.workers && s.workers[w].Working?
  {
    SetWorker(s, w, Looping).(finished := s.finished + {s.workers[w].position})
  }

  /** `run` up to the mutex; with no threads the caller runs the task itself. */
  function CallStep(s: State, p: Pid, task: Task): State {
    if s.workers == map[] then s.(inline := s.inline + [task]) else SetProducer(s, p, Calling(task))
  }

  function TaskOf(x: Producer): Task
    requires !x.Outside?
  {
    match x case Calling(t) => t case Blocked(t) => t case Signalled(t) => t
  }

  /** `run`, from the mutex to the wait or the return. */
  function EnterStep(s: State, p: Pid, wake: Option<Wid>): State
    requires p in s.producers && !s.producers[p].Outside?
  {
    var task := TaskOf(s.producers[p]);
    if IsFull(s) then SetProducer(s, p, Blocked(task))
    else WakeWorker(SetProducer(s.(queue := s.queue + [task], pushed := s.pushed + [task]), p, Outside), wake)
  }

  function StopStep(s: State): State {
    s.(running := false, workers := map w | w in s.workers :: if s.workers[w].Sleeping? then Woken else s.workers[w])
  }

  function Step(s: State, e: Event): State
    requires Enabled(s, e)
  {
    match e
    case Start(n) => StartStep(s, n)
    case Spawn(w) => SpawnStep(s, w)
    case Test(w) => TestStep(s, w)
    case Take(w, wake) => TakeStep(s, w, wake)
    case Finish(w) => FinishStep(s, w)
    case Call(p, task) => CallStep(s, p, task)
    case Enter(p, wake) => EnterStep(s, p, wake)
    case SpuriousWorker(w) => SetWorker(s, w, Woken)
    case SpuriousProducer(p) => SetProducer(s, p, Signalled(TaskOf(s.producers[p])))
    case Stop => StopStep(s)
  }

  predicate IsRun(s: State, es: seq<Event>)
    decreases |es|
  {
    es == [] || (Enabled(s, es[0]) && IsRun(Step(s, es[0]), es[1..]))
  }

  function Run(s: State, es: seq<Event>): State
    requires IsRun(s, es)
    decreases |es|
  {
    if es == [] then s else Run(Step(s, es[0]), es[1..])
  }
}
