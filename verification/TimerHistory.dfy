/** The timers of the queue against the calls made on it: what becomes of one timer, told from the events alone. */
module TimerHistory {
  import opened Options
  import opened TimerSpec
  import opened TimerInvariant
  import opened TimerProperties

  /** One timer's life: the timers created so far, the time, the time of the latest batch, the timer itself from its
      creation until it is freed, whether it is in flight, and whether it was cancelled. */
  datatype Life = Life(created: nat, clock: int, taken: int, timer: Option<Timer>, inFlight: bool, cancelled: bool)

  const UNBORN := Life(0, 0, 0, None, false, false)

  /** No other timer matters: the i-th `Add` makes timer i; a batch takes it when its time has come; after the batch it
      comes back one interval after the time the batch was taken, unless it is one shot or was cancelled. */
  function LifeStep(l: Life, e: Event, id: Id): Life {
    match e
    case Add(when, interval) =>
      l.(created := l.created + 1, timer := if l.created == id then Some(Timer(when, interval)) else l.timer)
    case Cancel(x) =>
      if x != id then l
      else if l.inFlight then l.(cancelled := true)
      else l.(cancelled := true, timer := None)
    case Tick(clock) => l.(clock := clock)
    case Begin => l.(taken := l.clock, inFlight := l.timer.Some? && l.timer.value.expiration <= l.clock)
    case End =>
      if !l.inFlight then l
      else if l.timer.Some? && l.timer.value.interval > 0 && !l.cancelled then
        l.(inFlight := false, timer := Some(Timer(l.taken + l.timer.value.interval, l.timer.value.interval)))
      else l.(inFlight := false, timer := None)
    case Poll => l
    case RunNext => l
  }

  function LifeOf(l: Life, es: seq<Event>, id: Id): Life
    decreases |es|
  {
    if es == [] then l else LifeOf(LifeStep(l, es[0], id), es[1..], id)
  }

  predicate IsInFlight(s: State, id: Id) { id in s.heap && Entry(s.heap[id].expiration, id) in s.batch }

  /** The queue holds of this timer what its life says. */
  ghost predicate Lives(s: State, l: Life, id: Id) {
    && l.created == s.nextId && l.clock == s.clock && l.taken == s.now
    && l.timer == (if id in s.heap then Some(s.heap[id]) else None)
    && (l.inFlight <==> IsInFlight(s, id))
    && (l.cancelled <==> id in s.cancelled)
  }

  lemma AddLives(s: State, l: Life, when: int, interval: nat, id: Id)
    requires Inv(s) && when > 0 && Lives(s, l, id)
    ensures Lives(AddStep(s, when, interval), LifeStep(l, Add(when, interval), id), id)
  {
    hide InsertEntry, Sorted, Distinct, Disjoint, Punctual, Flight;
    assert s.nextId !in s.heap && s.nextId !in s.cancelled;
    assert forall e :: e in s.batch ==> e.id != s.nextId;
  }

  lemma CancelLives(s: State, l: Life, x: Id, id: Id)
    requires Inv(s) && x in s.heap && Lives(s, l, id)
    ensures Lives(CancelStep(s, x), LifeStep(l, Cancel(x), id), id)
  {
    hide RemoveEntry, Sorted, Distinct, Punctual, Keyed, Owned, Marked;
    var e := Entry(s.heap[x].expiration, x);
    assert e in s.timers || e in s.batch;
    assert !(e in s.timers && e in s.batch);
  }

  lemma BeginLives(s: State, l: Life, id: Id)
    requires Inv(s) && Enabled(s, Begin) && Lives(s, l, id)
    ensures Lives(BeginStep(s), LifeStep(l, Begin, id), id)
  {
    hide DueCount, Sorted, Distinct, Disjoint, Punctual, Owned, Marked;
    if id in s.heap {
      assert s.batch == [];
      DueOrNot(s, Entry(s.heap[id].expiration, id));
    }
  }

  lemma EndLives(s: State, l: Life, id: Id)
    requires Inv(s) && Enabled(s, End) && Lives(s, l, id)
    ensures Lives(EndStep(s), LifeStep(l, End, id), id)
  {
    hide EndStep, Sorted, Distinct, Disjoint, Punctual, Flight, Marked;
    EndSettles(s);
    EndKeeps(s);
    var r := EndStep(s);
    if id in s.heap {
      var e := Entry(s.heap[id].expiration, id);
      if e in s.batch {
        assert Settled(s, e, r);
        MarkedExactly(s, id);
      } else {
        assert Untouched(s, e, r);
      }
    } else {
      assert id in s.freed || id >= s.nextId;
    }
  }

  /** A timer in flight is marked exactly when it was cancelled. */
  lemma MarkedExactly(s: State, id: Id)
    requires Inv(s) && IsInFlight(s, id)
    ensures id in s.canceling <==> id in s.cancelled
  {
  }

  lemma StepLives(s: State, l: Life, e: Event, id: Id)
    requires Inv(s) && Enabled(s, e) && Lives(s, l, id)
    ensures Lives(Step(s, e), LifeStep(l, e, id), id)
  {
    hide Inv, AddStep, CancelStep, BeginStep, EndStep;
    match e
    case Add(when, interval) => AddLives(s, l, when, interval, id);
    case Cancel(x) => CancelLives(s, l, x, id);
    case Begin => BeginLives(s, l, id);
    case End => EndLives(s, l, id);
    case Tick(clock) => assert Lives(s.(clock := clock), l.(clock := clock), id);
    case Poll =>
    case RunNext =>
  }

  lemma {:induction false} RunLives(s: State, l: Life, es: seq<Event>, id: Id)
    requires Inv(s) && IsRun(s, es) && Lives(s, l, id)
    ensures Lives(Run(s, es), LifeOf(l, es, id), id)
    decreases |es|
  {
    hide Inv, Step, Enabled, Lives;
    if es != [] {
      StepKeeps(s, es[0]);
      StepLives(s, l, es[0], id);
      RunLives(Step(s, es[0]), LifeStep(l, es[0], id), es[1..], id);
    }
  }

  /** In every state of every run each timer is where its own life, told from the events alone, says: created or not,
      live with that expiration and interval or freed, in flight or scheduled, cancelled or not. */
  lemma EveryTimerLives(es: seq<Event>, id: Id)
    requires IsRun(INITIAL, es)
    ensures var s := Run(INITIAL, es); var l := LifeOf(UNBORN, es, id);
            && l.created == s.nextId && l.clock == s.clock && l.taken == s.now
            && l.timer == (if id in s.heap then Some(s.heap[id]) else None)
            && (id in s.freed <==> id < l.created && l.timer == None)
            && (l.inFlight <==> exists e :: e in s.batch && e.id == id)
            && (l.cancelled <==> id in s.cancelled)
  {
    InitialHolds();
    RunLives(INITIAL, UNBORN, es, id);
    RunKeeps(INITIAL, es);
    var s := Run(INITIAL, es);
    if IsInFlight(s, id) { assert Entry(s.heap[id].expiration, id) in s.batch; }
  }

  function AddCount(es: seq<Event>): nat { if es == [] then 0 else (if es[0].Add? then 1 else 0) + AddCount(es[1..]) }

  lemma {:induction false} CreatedByAdds(l: Life, es: seq<Event>, id: Id)
    ensures LifeOf(l, es, id).created == l.created + AddCount(es)
    ensures LifeOf(l, es, id).cancelled <==> l.cancelled || Cancel(id) in es
    decreases |es|
  {
    if es != [] { CreatedByAdds(LifeStep(l, es[0], id), es[1..], id); }
  }

  /** From its creation a timer keeps its interval and, when it repeats, lives until it is cancelled. */
  lemma {:induction false} LifeKeeps(l: Life, es: seq<Event>, id: Id)
    requires id < l.created
    ensures var r := LifeOf(l, es, id);
            && (r.timer.Some? ==> l.timer.Some? && r.timer.value.interval == l.timer.value.interval)
            && (l.timer.Some? && l.timer.value.interval > 0 && !l.cancelled && Cancel(id) !in es ==> r.timer.Some?)
    decreases |es|
  {
    if es != [] {
      LifeKeeps(LifeStep(l, es[0], id), es[1..], id);
    }
  }

  lemma {:induction false} RunJoins(s: State, a: seq<Event>, b: seq<Event>)
    requires IsRun(s, a + b)
    ensures IsRun(s, a) && IsRun(Run(s, a), b) && Run(s, a + b) == Run(Run(s, a), b)
    decreases |a|
  {
    if a == [] {
      assert a + b == b;
    } else {
      assert (a + b)[0] == a[0] && (a + b)[1..] == a[1..] + b;
      RunJoins(Step(s, a[0]), a[1..], b);
    }
  }

  /** The time of the latest batch along the way that the timer was in, if any; `d` is the one before. */
  function LatestBatch(s: State, es: seq<Event>, id: Id, d: Option<int>): Option<int>
    requires IsRun(s, es)
    decreases |es|
  {
    if es == [] then d else LatestBatch(Step(s, es[0]), es[1..], id, if es[0].End? && IsInFlight(s, id) then Some(s.now) else d)
  }

  lemma {:induction false} ExpirationRun(s: State, l: Life, es: seq<Event>, id: Id, when: int, d: Option<int>)
    requires Inv(s) && IsRun(s, es) && Lives(s, l, id) && id < s.nextId
    requires l.timer.Some? ==> l.timer.value.expiration == if d.Some? then d.value + l.timer.value.interval else when
    ensures var r := Run(s, es); var t := LatestBatch(s, es, id, d);
            id in r.heap ==> r.heap[id].expiration == if t.Some? then t.value + r.heap[id].interval else when
    decreases |es|
  {
    hide Inv, Step, Enabled;
    if es != [] {
      StepKeeps(s, es[0]);
      StepLives(s, l, es[0], id);
      ExpirationRun(Step(s, es[0]), LifeStep(l, es[0], id), es[1..], id, when,
                    if es[0].End? && IsInFlight(s, id) then Some(s.now) else d);
    }
  }

  /** What a call of `addTimer` is for: the timer it creates is the one numbered by the calls before it; it is
      cancelled exactly if some `cancel` names it; as long as it is live it has the interval asked for, and expires at
      the time asked for or, once a batch had it, one interval after the time of the latest such batch; and one with an
      interval is live unless it was cancelled. */
  lemma AddedAsAsked(before: seq<Event>, when: int, interval: nat, after: seq<Event>)
    requires IsRun(INITIAL, before + [Add(when, interval)] + after)
    ensures var id := AddCount(before);
            var s := Run(INITIAL, before + [Add(when, interval)] + after);
            && IsRun(INITIAL, before + [Add(when, interval)]) && IsRun(Run(INITIAL, before + [Add(when, interval)]), after)
            && id < s.nextId == AddCount(before) + 1 + AddCount(after)
            && (id in s.cancelled <==> Cancel(id) in after)
            && (interval > 0 && Cancel(id) !in after ==> id in s.heap && id !in s.freed)
            && (id in s.heap ==>
                  var t := LatestBatch(Run(INITIAL, before + [Add(when, interval)]), after, id, None);
                  s.heap[id] == Timer(if t.Some? then t.value + interval else when, interval))
  {
    var add := [Add(when, interval)];
    var es := before + add + after;
    var id := AddCount(before);
    RunJoins(INITIAL, before + add, after);
    RunJoins(INITIAL, before, add);
    assert add[1..] == [];
    InitialHolds();
    RunKeeps(INITIAL, before);
    RunLives(INITIAL, UNBORN, before, id);
    var l0 := LifeOf(UNBORN, before, id);
    var s0 := Run(INITIAL, before);
    CreatedByAdds(UNBORN, before, id);
    assert id !in s0.cancelled;
    var l1 := LifeStep(l0, add[0], id);
    StepKeeps(s0, add[0]);
    StepLives(s0, l0, add[0], id);
    CreatedByAdds(l1, after, id);
    LifeKeeps(l1, after, id);
    var s1 := Step(s0, add[0]);
    assert Run(s0, add) == s1 by { assert Run(s1, []) == s1; }
    RunLives(s1, l1, after, id);
    RunKeeps(s1, after);
    ExpirationRun(s1, l1, after, id, when, None);
  }

  /** A call of `cancel`, before or during a batch: the timer is in no later batch. */
  lemma NeverCalledAgain(es: seq<Event>, id: Id, later: seq<Event>)
    requires IsRun(INITIAL, es) && Enabled(Run(INITIAL, es), Cancel(id))
    requires IsRun(Step(Run(INITIAL, es), Cancel(id)), later)
    ensures NeverBatched(Step(Run(INITIAL, es), Cancel(id)), later, id)
  {
    EveryRun(es);
    var s := Run(INITIAL, es);
    StepKeeps(s, Cancel(id));
    CancelledForGood(Step(s, Cancel(id)), later, id);
  }
}
