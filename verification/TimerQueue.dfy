/** The timer queue as it runs: an ordered container, heap-allocated timers, and a timer file descriptor, all updated
    in place. Each method does exactly what its step in the state machine does. */
module TimerQueues {
  import opened TimerSpec
  import opened TimerInvariant

  /** What a callback does while it runs: it may add timers, cancel live ones, and take time. */
  datatype Action = AddTimer(when: int, interval: nat) | CancelTimer(id: Id) | Pass(clock: int)

  function EventOf(a: Action): Event {
    match a
    case AddTimer(when, interval) => Add(when, interval)
    case CancelTimer(id) => Cancel(id)
    case Pass(clock) => Tick(clock)
  }

  function Events(actions: seq<Action>): seq<Event> {
    if actions == [] then [] else [EventOf(actions[0])] + Events(actions[1..])
  }

  /** The batch's callbacks, one script each, in order. */
  function Script(scripts: seq<seq<Action>>): seq<Event> {
    if scripts == [] then [] else [RunNext] + Events(scripts[0]) + Script(scripts[1..])
  }

  class TimerQueue {
    var timers: seq<Entry>
    var cancelingTimers: set<Id>
    var callingExpiredTimers: bool
    /** Allocated timers, and the next unused pointer. */
    var heap: map<Id, Timer>
    var nextId: Id
    /** The clock and the timer file descriptor. */
    var clock: int
    var timerfd: Kernel
    /** `handleRead` is on the list of the round's active channels. */
    var due: bool
    ghost var batch: seq<Entry>
    ghost var ran: nat
    ghost var now: int
    ghost var freed: seq<Id>
    ghost var cancelled: set<Id>
    ghost var called: seq<Id>

    ghost function Abs(): State
      reads this
    {
      State(timers, heap, nextId, due, callingExpiredTimers, batch, ran, now, cancelingTimers, clock, timerfd,
            freed, cancelled, called)
    }

    constructor ()
      ensures Abs() == INITIAL
    {
      timers, cancelingTimers, callingExpiredTimers := [], {}, false;
      heap, nextId, clock, timerfd, due := map[], 0, 0, Disarmed, false;
      batch, ran, now, freed, cancelled, called := [], 0, 0, [], {}, [];
    }

    /** `resetTimerfd`: seconds and nanoseconds from now. */
    method ResetTimerfd(expiration: int)
      modifies this`timerfd
      ensures Abs() == Arm(old(Abs()), expiration)
    {
      var spec := HowMuchTimeFromNow(expiration, clock);
      SplitExact(expiration, clock);
      timerfd := Armed(clock + (spec.seconds * 1000000000 + spec.nanoseconds) / 1000, clock);
    }

    /** `insert`: tells whether the new entry is the earliest. */
    method Insert(id: Id) returns (earliestChanged: bool)
      requires id in heap
      modifies this`timers
      ensures timers == InsertEntry(old(timers), Entry(heap[id].expiration, id))
      ensures earliestChanged == (old(timers) == [] || heap[id].expiration < old(timers)[0].when)
    {
      var e := Entry(heap[id].expiration, id);
      earliestChanged := timers == [] || e.when < timers[0].when;
      ghost var before, after := timers, InsertEntry(timers, e);
      var i := 0;
      assert timers[0..] == timers;
      while i < |timers| && !Less(e, timers[i])
        invariant i <= |timers| && timers == before
        invariant after == before[..i] + InsertEntry(before[i..], e)
      {
        i := i + 1;
      }
      assert after == before[..i] + [e] + before[i..];
      timers := timers[..i] + [e] + timers[i..];
    }

    method Add(when: int, interval: nat) returns (id: Id)
      requires when > 0
      modifies this
      ensures id == old(nextId) && Abs() == AddStep(old(Abs()), when, interval)
    {
      id := nextId;
      nextId := nextId + 1;
      heap := heap[id := Timer(when, interval)];
      var earliestChanged := Insert(id);
      if earliestChanged {
        ResetTimerfd(heap[id].expiration);
      }
    }

    method Delete(id: Id)
      modifies this`heap, this`freed
      ensures Abs() == Free(old(Abs()), id)
    {
      heap := heap - {id};
      freed := freed + [id];
    }

    /** `timers_.find` and `timers_.erase`. */
    method Erase(e: Entry) returns (n: nat)
      modifies this`timers
      ensures n == (if e in old(timers) then 1 else 0)
      ensures timers == if n == 1 then RemoveEntry(old(timers), e) else old(timers)
    {
      var i := 0;
      while i < |timers| && timers[i] != e
        invariant i <= |timers| && e !in timers[..i]
        invariant RemoveEntry(timers, e) == timers[..i] + RemoveEntry(timers[i..], e)
      {
        assert timers[i..][1..] == timers[i + 1..];
        assert timers[..i + 1] == timers[..i] + [timers[i]];
        i := i + 1;
      }
      assert timers == timers[..i] + timers[i..];
      if i == |timers| { return 0; }
      assert timers[i..][0] == e && timers[i..][1..] == timers[i + 1..];
      timers := timers[..i] + timers[i + 1..];
      return 1;
    }

    method CancelTimer(id: Id)
      requires id in heap
      modifies this
      ensures Abs() == CancelStep(old(Abs()), id)
    {
      var n := Erase(Entry(heap[id].expiration, id));
      if n == 1 {
        Delete(id);
      } else if callingExpiredTimers {
        cancelingTimers := cancelingTimers + {id};
      }
      cancelled := cancelled + {id};
    }

    /** Everything below (now, greatest pointer) leaves the container. */
    method GetExpired(now: int) returns (expired: seq<Entry>)
      modifies this`timers
      ensures var n := DueCount(old(timers), now); expired == old(timers)[..n] && timers == old(timers)[n..]
    {
      var i := 0;
      while i < |timers| && timers[i].when <= now
        invariant i <= |timers| && DueCount(timers, now) == i + DueCount(timers[i..], now)
      {
        assert timers[i..][1..] == timers[i + 1..];
        i := i + 1;
      }
      expired := timers[..i];
      timers := timers[i..];
    }

    /** One turn of the loop in `reset`. */
    method ResetTimer(e: Entry, now: int)
      requires e.id in heap && now == this.now
      modifies this`timers, this`heap, this`freed
      ensures Abs() == ResetOne(old(Abs()), e)
    {
      hide InsertEntry;
      if heap[e.id].Repeat() && e.id !in cancelingTimers {
        heap := heap[e.id := heap[e.id].Restart(now)];
        var _ := Insert(e.id);
      } else {
        Delete(e.id);
      }
    }

    /** Reschedules or frees the batch, then arms for the earliest entry. */
    method Reset(expired: seq<Entry>, now: int)
      requires !callingExpiredTimers && expired == batch && now == this.now && Structure(Abs())
      modifies this
      ensures Distinct(expired) && forall e :: e in expired ==> e.id in old(heap)
      ensures var r := ResetAll(old(Abs()), expired);
              Abs() == if r.timers != [] && r.timers[0].id in r.heap && r.heap[r.timers[0].id].expiration > 0
                       then Arm(r, r.heap[r.timers[0].id].expiration) else r
    {
      hide ResetOne, Structure;
      BatchLive(Abs());
      ghost var r := ResetAll(Abs(), expired);
      for i := 0 to |expired|
        invariant batch == expired[i..] && this.now == now && Structure(Abs())
        invariant Distinct(batch) && (forall e :: e in batch ==> e.id in heap) && ResetAll(Abs(), batch) == r
      {
        assert batch[0] == expired[i] && batch[1..] == expired[i + 1..];
        ResetOneKeeps(Abs());
        ResetOneFrame(Abs(), expired[i]);
        ResetTimer(expired[i], now);
        batch := expired[i + 1..];
        BatchLive(Abs());
      }
      ArmEarliest();
    }

    method ArmEarliest()
      modifies this`timerfd
      ensures var s := old(Abs());
              Abs() == if s.timers != [] && s.timers[0].id in s.heap && s.heap[s.timers[0].id].expiration > 0
                       then Arm(s, s.heap[s.timers[0].id].expiration) else s
    {
      if timers != [] && timers[0].id in heap {
        var nextExpire := heap[timers[0].id].expiration;
        if nextExpire > 0 {
          ResetTimerfd(nextExpire);
        }
      }
    }

    method Perform(a: Action)
      requires Enabled(Abs(), EventOf(a))
      modifies this
      ensures Abs() == Step(old(Abs()), EventOf(a))
    {
      match a
      case AddTimer(when, interval) =>
        var _ := Add(when, interval);
      case CancelTimer(id) => CancelTimer(id);
      case Pass(t) =>
        clock := t;
        if timerfd.Armed? && timerfd.deadline <= t {
          timerfd := Fired;
        }
    }

    /** One callback: it is entered in the log, then does what its script says. */
    method CallBack(actions: seq<Action>, ghost more: seq<Event>)
      requires Inv(Abs()) && callingExpiredTimers && IsRun(Abs(), [RunNext] + Events(actions) + more)
      modifies this
      ensures Inv(Abs()) && callingExpiredTimers && batch == old(batch) && now == old(now) && ran == old(ran) + 1
      ensures IsRun(Abs(), more) && Run(Abs(), more) == Run(old(Abs()), [RunNext] + Events(actions) + more)
    {
      hide Inv, Step, Run, IsRun;
      ghost var events := [RunNext] + Events(actions) + more;
      assert events[0] == RunNext && events[1..] == Events(actions) + more;
      Next(Abs(), events);
      StepKeeps(Abs(), RunNext);
      RunNextIs(Abs());
      called := called + [batch[ran].id];
      ran := ran + 1;
      Follow(actions, more);
    }

    /** The actions of one script, in order. */
    method Follow(actions: seq<Action>, ghost more: seq<Event>)
      requires Inv(Abs()) && callingExpiredTimers && IsRun(Abs(), Events(actions) + more)
      modifies this
      ensures Inv(Abs()) && callingExpiredTimers && batch == old(batch) && now == old(now) && ran == old(ran)
      ensures IsRun(Abs(), more) && Run(Abs(), more) == Run(old(Abs()), Events(actions) + more)
    {
      hide Inv, Step, Run, IsRun;
      ghost var all := Run(Abs(), Events(actions) + more);
      assert actions[0..] == actions;
      for i := 0 to |actions|
        invariant Inv(Abs()) && callingExpiredTimers && batch == old(batch) && now == old(now) && ran == old(ran)
        invariant IsRun(Abs(), Events(actions[i..]) + more) && Run(Abs(), Events(actions[i..]) + more) == all
      {
        ghost var rest := Events(actions[i..]) + more;
        assert actions[i..][0] == actions[i] && actions[i..][1..] == actions[i + 1..];
        assert rest[0] == EventOf(actions[i]) && rest[1..] == Events(actions[i + 1..]) + more;
        Next(Abs(), rest);
        StepKeeps(Abs(), rest[0]);
        ActionFrame(Abs(), actions[i]);
        Perform(actions[i]);
      }
      assert Events(actions[|actions|..]) + more == more;
    }

    /** The loop finds the timerfd readable. */
    method Poll()
      requires Enabled(Abs(), TimerSpec.Poll)
      modifies this`due
      ensures Abs() == Step(old(Abs()), TimerSpec.Poll)
    {
      due := true;
    }

    /** `readTimerfd`: a timer armed anew since the poll is not readable, and stays armed. */
    method ReadTimerfd()
      modifies this`due, this`timerfd
      ensures Abs() == old(Abs()).(due := false, kernel := if old(timerfd).Fired? then Disarmed else old(timerfd))
    {
      due := false;
      if timerfd.Fired? { timerfd := Disarmed; }
    }

    /** What is due leaves the container and is in flight. */
    method MoveExpired() returns (expired: seq<Entry>)
      modifies this`timers, this`batch, this`ran, this`callingExpiredTimers
      ensures var n := DueCount(old(timers), clock);
              && expired == old(timers)[..n]
              && Abs() == old(Abs()).(timers := old(timers)[n..], batch := expired, ran := 0, calling := true)
    {
      hide DueCount;
      expired := GetExpired(clock);
      batch, ran := expired, 0;
      callingExpiredTimers := true;
    }

    /** The start of `handleRead`: the batch is taken. */
    method TakeBatch() returns (expired: seq<Entry>)
      modifies this
      ensures Abs() == BeginStep(old(Abs())) && expired == batch
    {
      hide DueCount;
      now := clock;
      ReadTimerfd();
      cancelingTimers := {};
      expired := MoveExpired();
    }

    /** The end of `handleRead`: the batch is settled. */
    method SettleBatch(expired: seq<Entry>, now: int)
      requires Inv(Abs()) && Enabled(Abs(), End) && expired == batch && now == this.now
      modifies this
      ensures Enabled(old(Abs()), End) && Abs() == EndStep(old(Abs()))
    {
      hide Structure, ResetAll;
      StructureSame(Abs(), Abs().(calling := false));
      callingExpiredTimers := false;
      Reset(expired, now);
    }

    /** `handleRead`, with one script a callback: what the callbacks do. */
    method HandleRead(scripts: seq<seq<Action>>)
      requires Inv(Abs()) && Enabled(Abs(), Begin) && |scripts| == |BeginStep(Abs()).batch|
      requires IsRun(BeginStep(Abs()), Script(scripts))
      modifies this
      ensures var s := Run(BeginStep(old(Abs())), Script(scripts)); Enabled(s, End) && Abs() == EndStep(s)
      ensures Inv(Abs())
    {
      hide Inv, EndStep, Run, IsRun;
      StepKeeps(Abs(), Begin);
      var expired := TakeBatch();
      ghost var s := Run(Abs(), Script(scripts));
      var t := clock;
      assert scripts[0..] == scripts;
      for i := 0 to |expired|
        invariant Inv(Abs()) && callingExpiredTimers && batch == expired && now == t && ran == i
        invariant IsRun(Abs(), Script(scripts[i..])) && Run(Abs(), Script(scripts[i..])) == s
      {
        assert scripts[i..][0] == scripts[i] && scripts[i..][1..] == scripts[i + 1..];
        CallBack(scripts[i], Script(scripts[i + 1..]));
      }
      assert scripts[|expired|..] == [];
      NoMore(Abs());
      EndEnabled(s);
      EndKeeps(s);
      SettleBatch(expired, t);
    }
  }

  lemma NoMore(s: State)
    ensures Script([]) == [] && Run(s, []) == s
  {
  }

  lemma Next(s: State, es: seq<Event>)
    requires IsRun(s, es) && es != []
    ensures Enabled(s, es[0]) && IsRun(Step(s, es[0]), es[1..]) && Run(s, es) == Run(Step(s, es[0]), es[1..])
  {
  }

  lemma RunNextIs(s: State)
    requires Enabled(s, RunNext)
    ensures Step(s, RunNext) == RunStep(s)
  {
  }

  lemma ActionFrame(s: State, a: Action)
    requires Enabled(s, EventOf(a))
    ensures var r := Step(s, EventOf(a)); r.calling == s.calling && r.batch == s.batch && r.now == s.now && r.ran == s.ran
  {
  }

  lemma EndEnabled(s: State)
    requires Inv(s) && s.calling && s.ran == |s.batch|
    ensures Enabled(s, End) && Structure(s)
  {
    BatchLive(s);
  }
}
