/** The timer queue as a state machine: an ordered set of (time, timer) entries, batches in flight, callbacks that
    add and cancel, repetition, and a one-shot kernel timer. Pointers are numbers never used twice; times are
    microseconds of one clock. */
module TimerSpec {

  type Id = nat

  datatype Entry = Entry(when: int, id: Id)

  predicate Less(a: Entry, b: Entry) { a.when < b.when || (a.when == b.when && a.id < b.id) }

  /** An interval of 0 means one shot. */
  datatype Timer = Timer(expiration: int, interval: nat) {
    predicate Repeat() { interval > 0 }

    function Restart(now: int): Timer { if Repeat() then this.(expiration := now + interval) else this.(expiration := 0) }
  }

  /** The timerfd: not armed, armed at `since` for `deadline`, or expired and readable. */
  datatype Kernel = Disarmed | Armed(deadline: int, since: int) | Fired

  /** `due`: the loop has seen the timerfd readable, and `handleRead` is to be called in the same round. Below `calling`: the batch in flight, how many of its callbacks have run, the time it was taken, and the timers
      marked by `cancel` meanwhile. Below `kernel`: the timers freed, cancelled and called back so far. */
  datatype State = State(
    timers: seq<Entry>, heap: map<Id, Timer>, nextId: Id,
    due: bool, calling: bool, batch: seq<Entry>, ran: nat, now: int, canceling: set<Id>,
    clock: int, kernel: Kernel,
    freed: seq<Id>, cancelled: set<Id>, called: seq<Id>)

  const INITIAL := State([], map[], 0, false, false, [], 0, 0, {}, 0, Disarmed, [], {}, [])

  // ---------------------------------------------------------------- the ordered set

  ghost predicate Sorted(ts: seq<Entry>) { forall i, j :: 0 <= i < j < |ts| ==> Less(ts[i], ts[j]) }

  function InsertEntry(ts: seq<Entry>, e: Entry): seq<Entry> {
    if ts == [] || Less(e, ts[0]) then [e] + ts else [ts[0]] + InsertEntry(ts[1..], e)
  }

  function RemoveEntry(ts: seq<Entry>, e: Entry): seq<Entry> {
    if ts == [] then [] else if ts[0] == e then ts[1..] else [ts[0]] + RemoveEntry(ts[1..], e)
  }

  /** How many leading entries are below (now, greatest pointer). */
  function DueCount(ts: seq<Entry>, now: int): (n: nat)
    ensures n <= |ts|
  {
    if ts == [] || ts[0].when > now then 0 else 1 + DueCount(ts[1..], now)
  }

  lemma {:induction false} InsertedSorted(ts: seq<Entry>, e: Entry)
    requires Sorted(ts) && e !in ts
    ensures Sorted(InsertEntry(ts, e))
    ensures forall x :: x in InsertEntry(ts, e) <==> x == e || x in ts
    ensures |InsertEntry(ts, e)| == |ts| + 1
    ensures InsertEntry(ts, e)[0] == if ts == [] || Less(e, ts[0]) then e else ts[0]
  {
    if ts != [] && !Less(e, ts[0]) {
      assert ts[0] in ts;
      InsertedSorted(ts[1..], e);
      var r := InsertEntry(ts[1..], e);
      forall j | 0 <= j < |r| ensures Less(ts[0], r[j]) {
        assert r[j] in r;
      }
    }
  }

  lemma {:induction false} RemovedSorted(ts: seq<Entry>, e: Entry)
    requires Sorted(ts) && e in ts
    ensures Sorted(RemoveEntry(ts, e))
    ensures forall x :: x in RemoveEntry(ts, e) <==> x != e && x in ts
    ensures |RemoveEntry(ts, e)| == |ts| - 1
  {
    if ts[0] == e {
      forall x | x in ts[1..] ensures x != e { }
    } else {
      RemovedSorted(ts[1..], e);
      var r := RemoveEntry(ts[1..], e);
      forall j | 0 <= j < |r| ensures Less(ts[0], r[j]) {
        assert r[j] in r;
      }
    }
  }

  lemma {:induction false} DueExactly(ts: seq<Entry>, now: int)
    requires Sorted(ts)
    ensures var n := DueCount(ts, now);
            (forall i :: 0 <= i < n ==> ts[i].when <= now) && (forall i :: n <= i < |ts| ==> ts[i].when > now)
  {
    if ts != [] {
      if ts[0].when <= now {
        DueExactly(ts[1..], now);
        var n := DueCount(ts[1..], now);
        forall i | 0 <= i < |ts| ensures i < n + 1 ==> ts[i].when <= now
                                 ensures i >= n + 1 ==> ts[i].when > now {
          if i > 0 { assert ts[i] == ts[1..][i - 1]; }
        }
      } else {
        assert forall i :: 0 < i < |ts| ==> Less(ts[0], ts[i]);
      }
    }
  }

  // ---------------------------------------------------------------- the kernel timer

  const MIN_DELAY: int := 100

  /** `howMuchTimeFromNow`, in microseconds. */
  function Delay(when: int, clock: int): int { if when - clock < MIN_DELAY then MIN_DELAY else when - clock }

  function Arm(s: State, when: int): State { s.(kernel := Armed(s.clock + Delay(when, s.clock), s.clock)) }

  datatype TimeSpec = TimeSpec(seconds: int, nanoseconds: int)

  function HowMuchTimeFromNow(when: int, clock: int): TimeSpec {
    var micros := Delay(when, clock);
    TimeSpec(micros / 1000000, micros % 1000000 * 1000)
  }

  /** The split is exact and normalised, and never the zero that would disarm the timer. */
  lemma SplitExact(when: int, clock: int)
    ensures var t := HowMuchTimeFromNow(when, clock);
            && t.seconds * 1000000000 + t.nanoseconds == (if when - clock >= 100 then when - clock else 100) * 1000
            && 0 <= t.seconds && 0 <= t.nanoseconds < 1000000000
            && !(t.seconds == 0 && t.nanoseconds == 0)
  {
    var micros := Delay(when, clock);
    assert micros == 1000000 * (micros / 1000000) + micros % 1000000;
  }

  /** The timer is armed for the expiration itself, or for 100 microseconds from now where that is later. */
  lemma ArmedExactly(s: State, when: int)
    ensures var k := Arm(s, when).kernel;
            && k.Armed? && k.since == s.clock && k.deadline >= when && k.deadline >= s.clock + 100
            && (k.deadline == when || k.deadline == s.clock + 100)
  {
  }

  // ---------------------------------------------------------------- steps

  function Schedule(s: State, id: Id, t: Timer): State {
    s.(timers := InsertEntry(s.timers, Entry(t.expiration, id)), heap := s.heap[id := t])
  }

  function AddStep(s: State, when: int, interval: nat): State {
    var s' := Schedule(s, s.nextId, Timer(when, interval)).(nextId := s.nextId + 1);
    if s.timers == [] || when < s.timers[0].when then Arm(s', when) else s'
  }

  function Free(s: State, id: Id): State { s.(heap := s.heap - {id}, freed := s.freed + [id]) }

  /** A scheduled timer is removed and freed; one in flight is marked. */
  function CancelStep(s: State, id: Id): State
    requires id in s.heap
  {
    var e := Entry(s.heap[id].expiration, id);
    var s' := s.(cancelled := s.cancelled + {id});
    if e in s.timers then Free(s'.(timers := RemoveEntry(s.timers, e)), id)
    else if s.calling then s'.(canceling := s.canceling + {id})
    else s'
  }

  function TickStep(s: State, clock: int): State {
    s.(clock := clock, kernel := if s.kernel.Armed? && s.kernel.deadline <= clock then Fired else s.kernel)
  }

  /** `handleRead` up to its callbacks. Its read succeeds and empties the timerfd, or fails and changes nothing. */
  function BeginStep(s: State): State {
    var n := DueCount(s.timers, s.clock);
    s.(now := s.clock, due := false, kernel := if s.kernel.Fired? then Disarmed else s.kernel, canceling := {}, batch := s.timers[..n], timers := s.timers[n..],
       calling := true, ran := 0)
  }

  /** The next callback of the batch. */
  function RunStep(s: State): State
    requires s.ran < |s.batch|
  {
    s.(ran := s.ran + 1, called := s.called + [s.batch[s.ran].id])
  }

  /** One turn of the loop in `reset`. */
  function ResetOne(s: State, e: Entry): State
    requires e.id in s.heap
  {
    var t := s.heap[e.id];
    if t.Repeat() && e.id !in s.canceling then Schedule(s, e.id, t.Restart(s.now)) else Free(s, e.id)
  }

  predicate Distinct(es: seq<Entry>) { forall i, j :: 0 <= i < j < |es| ==> es[i].id != es[j].id }

  /** The loop over the batch, from its front. */
  function ResetAll(s: State, es: seq<Entry>): State
    requires Distinct(es) && forall e :: e in es ==> e.id in s.heap
    decreases |es|
  {
    if es == [] then s
    else
      assert forall e :: e in es[1..] ==> e in es && e.id != es[0].id;
      ResetAll(ResetOne(s, es[0]).(batch := es[1..]), es[1..])
  }

  /** The rest of `handleRead`: reschedule or free the batch, then arm for the earliest entry. */
  function EndStep(s: State): State
    requires Distinct(s.batch) && forall e :: e in s.batch ==> e.id in s.heap
  {
    var s' := ResetAll(s.(calling := false), s.batch);
    if s'.timers != [] && s'.timers[0].id in s'.heap && s'.heap[s'.timers[0].id].expiration > 0
    then Arm(s', s'.heap[s'.timers[0].id].expiration) else s'
  }

  datatype Event = Add(when: int, interval: nat) | Cancel(id: Id) | Tick(clock: int) | Poll | Begin | RunNext | End

  predicate Enabled(s: State, e: Event) {
    match e
    case Add(when, _) => when > 0
    case Cancel(id) => id in s.heap
    case Tick(clock) => clock >= s.clock
    case Poll => !s.calling && s.kernel.Fired?
    case Begin => !s.calling && s.due
    case RunNext => s.calling && s.ran < |s.batch|
    case End => s.calling && s.ran == |s.batch| && Distinct(s.batch) && forall e :: e in s.batch ==> e.id in s.heap
  }

  function Step(s: State, e: Event): State
    requires Enabled(s, e)
  {
    match e
    case Add(when, interval) => AddStep(s, when, interval)
    case Cancel(id) => CancelStep(s, id)
    case Tick(clock) => TickStep(s, clock)
    case Poll => s.(due := true)
    case Begin => BeginStep(s)
    case RunNext => RunStep(s)
    case End => EndStep(s)
  }

  predicate IsRun(s: State, es: seq<Event>)
    decreases |es|
  {
    es == [] || (Enabled(s, es[0]) && IsRun(Step(s, es[0]), es[1..]))
  }

  function Run(s: State, es: seq<Event>): State
    requires IsRun(s, es)
    decreases |es|
  {
    if es == [] then s else Run(Step(s, es[0]), es[1..])
  }
}
