/** What the invariant means for users of the timer queue. */
module TimerProperties {
  import opened Options
  import opened TimerSpec
  import opened TimerInvariant

  // ---------------------------------------------------------------- memory

  function Ids(es: seq<Entry>): seq<Id> { seq(|es|, i requires 0 <= i < |es| => es[i].id) }

  /** In every state a timer is live exactly when it is scheduled or in flight, never both; and it was freed
      exactly when it was created and is no longer live, and then once. */
  lemma LiveExactly(es: seq<Event>, id: Id)
    requires IsRun(INITIAL, es)
    ensures var s := Run(INITIAL, es);
            var scheduled := exists e :: e in s.timers && e.id == id;
            var inFlight := exists e :: e in s.batch && e.id == id;
            && !(scheduled && inFlight)
            && (id in s.heap <==> scheduled || inFlight)
            && (id in s.freed <==> id < s.nextId && id !in s.heap)
            && multiset(s.freed)[id] <= 1
  {
    EveryRun(es);
    var s := Run(INITIAL, es);
    OnceAtMost(s.freed, id);
    if id in s.heap {
      var e := Entry(s.heap[id].expiration, id);
      assert e in s.timers || e in s.batch;
    }
  }

  lemma {:induction false} OnceAtMost(ids: seq<Id>, id: Id)
    requires forall i, j :: 0 <= i < j < |ids| ==> ids[i] != ids[j]
    ensures multiset(ids)[id] <= 1
    ensures id in ids ==> multiset(ids)[id] == 1
  {
    if ids != [] {
      var n := |ids| - 1;
      assert ids == ids[..n] + [ids[n]];
      OnceAtMost(ids[..n], id);
      assert multiset(ids) == multiset(ids[..n]) + multiset{ids[n]};
      if ids[n] == id { assert id !in ids[..n]; }
    }
  }

  /** The destructor deletes what is still scheduled: with no batch in flight, every timer ever created has then been
      freed exactly once. */
  lemma DestructorFreesTheRest(es: seq<Event>, id: Id)
    requires IsRun(INITIAL, es) && !Run(INITIAL, es).calling && id < Run(INITIAL, es).nextId
    ensures var s := Run(INITIAL, es); multiset(s.freed + Ids(s.timers))[id] == 1
  {
    EveryRun(es);
    var s := Run(INITIAL, es);
    OnceAtMost(s.freed, id);
    OnceAtMost(Ids(s.timers), id);
    assert multiset(s.freed + Ids(s.timers)) == multiset(s.freed) + multiset(Ids(s.timers));
    forall i | 0 <= i < |s.timers| ensures Ids(s.timers)[i] in s.heap { assert s.timers[i] in s.timers; }
    if id in s.heap {
      var e := Entry(s.heap[id].expiration, id);
      var i :| 0 <= i < |s.timers| && s.timers[i] == e;
      assert Ids(s.timers)[i] == id;
    }
  }

  /** No turn of `reset` meets an entry with the key it inserts. */
  predicate NoCollision(s: State, es: seq<Entry>)
    requires Distinct(es) && forall e :: e in es ==> e.id in s.heap
    decreases |es|
  {
    es == [] ||
    (assert forall e :: e in es[1..] ==> e in es && e.id != es[0].id;
     && (s.heap[es[0].id].Repeat() && es[0].id !in s.canceling ==>
           Entry(s.heap[es[0].id].Restart(s.now).expiration, es[0].id) !in s.timers)
     && NoCollision(ResetOne(s, es[0]).(batch := es[1..]), es[1..]))
  }

  lemma {:induction false} ResetNeverCollides(s: State)
    requires Structure(s)
    ensures forall e :: e in s.batch ==> e.id in s.heap
    ensures NoCollision(s, s.batch)
    decreases |s.batch|
  {
    hide Structure, ResetOne;
    BatchLive(s);
    if s.batch != [] {
      FreshKey(s);
      ResetOneKeeps(s);
      ResetNeverCollides(ResetOne(s, s.batch[0]).(batch := s.batch[1..]));
    }
  }

  lemma FreshKey(s: State)
    requires Structure(s) && s.batch != []
    ensures forall when :: Entry(when, s.batch[0].id) !in s.timers
  {
    assert s.batch[0] in s.batch;
  }

  /** `insert` never collides, whether called for a new timer or from `reset`. */
  lemma InsertNeverCollides(es: seq<Event>, when: int)
    requires IsRun(INITIAL, es) && when > 0
    ensures var s := Run(INITIAL, es);
            && Entry(when, s.nextId) !in s.timers
            && (Enabled(s, End) ==> NoCollision(s.(calling := false), s.batch))
  {
    EveryRun(es);
    var s := Run(INITIAL, es);
    AddKeeps(s, when, 0);
    StructureSame(s, s.(calling := false));
    ResetNeverCollides(s.(calling := false));
  }

  // ---------------------------------------------------------------- batches

  /** A batch is exactly the live timers whose time has come, each once, in order of time and then pointer; none of
      them was ever cancelled; all other timers stay scheduled. */
  lemma BatchExactly(es: seq<Event>)
    requires IsRun(INITIAL, es) && Enabled(Run(INITIAL, es), Begin)
    ensures var s := Run(INITIAL, es); var s' := BeginStep(s);
            && Sorted(s'.batch) && Distinct(s'.batch) && s'.now == s.clock && s'.ran == 0
            && (forall id :: id in s.heap ==>
                  var e := Entry(s.heap[id].expiration, id);
                  if e.when <= s.clock then e in s'.batch && e !in s'.timers else e in s'.timers && e !in s'.batch)
            && (forall e :: e in s'.batch ==> e.id in s.heap && e.id !in s.cancelled)
  {
    EveryRun(es);
    var s := Run(INITIAL, es);
    var s' := BeginStep(s);
    SplitSorted(s.timers, DueCount(s.timers, s.clock));
    BeginKeeps(s);
    NoneCancelledAtRest(s);
    forall id | id in s.heap
      ensures var e := Entry(s.heap[id].expiration, id);
              if e.when <= s.clock then e in s'.batch && e !in s'.timers else e in s'.timers && e !in s'.batch
    {
      DueOrNot(s, Entry(s.heap[id].expiration, id));
    }
  }

  lemma DueOrNot(s: State, e: Entry)
    requires Sorted(s.timers) && e in s.timers
    ensures var s' := BeginStep(s); if e.when <= s.clock then e in s'.batch && e !in s'.timers else e in s'.timers && e !in s'.batch
  {
    var n := DueCount(s.timers, s.clock);
    DueExactly(s.timers, s.clock);
    var i :| 0 <= i < |s.timers| && s.timers[i] == e;
    if i < n { assert s.timers[..n][i] == e; } else { assert s.timers[n..][i - n] == e; }
  }

  predicate InBatch(e: Event) { !e.Begin? && !e.End? }

  /** While a batch is in flight its callbacks run one after the other in its order, whatever they add or cancel. */
  lemma {:induction false} CallbacksInOrder(s: State, es: seq<Event>)
    requires Inv(s) && s.calling && IsRun(s, es) && forall e :: e in es ==> InBatch(e)
    ensures var r := Run(s, es);
            && r.calling && r.batch == s.batch && r.now == s.now && s.ran <= r.ran <= |r.batch|
            && r.called == s.called + Ids(s.batch)[s.ran..r.ran]
    decreases |es|
  {
    hide Inv, Step, Enabled, Ids;
    CallbackBounds(s);
    if es != [] {
      assert InBatch(es[0]);
      StepKeeps(s, es[0]);
      OneEvent(s, es[0]);
      var s1 := Step(s, es[0]);
      CallbacksInOrder(s1, es[1..]);
      var r := Run(s1, es[1..]);
      CallsJoin(s.called, Ids(s.batch), s.ran, s1.ran, r.ran);
    } else {
      CallsJoin(s.called, Ids(s.batch), s.ran, s.ran, s.ran);
    }
  }

  lemma CallbackBounds(s: State)
    requires Inv(s) && s.calling
    ensures s.ran <= |s.batch| == |Ids(s.batch)|
  {
  }

  lemma OneEvent(s: State, e: Event)
    requires Inv(s) && s.calling && Enabled(s, e) && InBatch(e)
    ensures var r := Step(s, e);
            && r.calling && r.batch == s.batch && r.now == s.now && s.ran <= r.ran <= |s.batch| == |Ids(s.batch)|
            && r.called == s.called + Ids(s.batch)[s.ran..r.ran]
  {
    if e.RunNext? {
      assert Ids(s.batch)[s.ran..s.ran + 1] == [s.batch[s.ran].id];
    } else {
      assert s.called + Ids(s.batch)[s.ran..s.ran] == s.called;
    }
  }

  lemma CallsJoin(called: seq<Id>, ids: seq<Id>, i: nat, j: nat, k: nat)
    requires i <= j <= |ids| && (j <= k <= |ids|)
    ensures called + ids[i..j] + ids[j..k] == called + ids[i..k]
    ensures called + ids[i..i] == called
  {
    assert ids[i..j] + ids[j..k] == ids[i..k];
  }

  /** One whole `handleRead`: exactly the batch was called back, in order, when its loop is over. */
  lemma HandleReadCallsTheBatch(s: State, es: seq<Event>)
    requires Inv(s) && Enabled(s, Begin)
    requires IsRun(BeginStep(s), es) && (forall e :: e in es ==> InBatch(e)) && Enabled(Run(BeginStep(s), es), End)
    ensures Run(BeginStep(s), es).called == s.called + Ids(BeginStep(s).batch)
  {
    StepKeeps(s, Begin);
    CallbacksInOrder(BeginStep(s), es);
    var b := BeginStep(s).batch;
    assert Ids(b)[0..|b|] == Ids(b);
  }

  /** The fate of one timer at the end of its batch. */
  ghost predicate Settled(s: State, e: Entry, r: State)
    requires e.id in s.heap
  {
    var t := s.heap[e.id];
    if t.Repeat() && e.id !in s.canceling then
      && e.id in r.heap && r.heap[e.id] == t.(expiration := s.now + t.interval)
      && Entry(s.now + t.interval, e.id) in r.timers
    else e.id !in r.heap && e.id in r.freed
  }

  /** Timers outside the batch are left alone. */
  ghost predicate Untouched(s: State, e: Entry, r: State) {
    e in r.timers && e.id in s.heap && e.id in r.heap && r.heap[e.id] == s.heap[e.id]
  }

  /** What one turn of `reset` comes to, for the entry itself and for everything else. */
  ghost predicate OneSettled(s: State, e0: Entry, rest: seq<Entry>, r: State)
    requires e0.id in s.heap
  {
    && Settled(s, e0, r)
    && (forall e :: e in s.timers ==> Untouched(s, e, r))
    && (forall e :: e in rest ==> e.id in s.heap && e.id in r.heap && r.heap[e.id] == s.heap[e.id])
    && (forall id :: id in s.freed ==> id in r.freed)
    && r.canceling == s.canceling && r.now == s.now
  }

  lemma ResetOneSettles(s: State)
    requires Structure(s) && s.batch != []
    ensures s.batch[0].id in s.heap
    ensures OneSettled(s, s.batch[0], s.batch[1..], ResetOne(s, s.batch[0]).(batch := s.batch[1..]))
  {
    hide InsertEntry, OneSettled;
    var e0 := s.batch[0];
    assert e0 in s.batch && e0.id in s.heap;
    forall f | f in s.batch[1..] ensures f.id != e0.id && f in s.batch {
      var j :| 0 <= j < |s.batch[1..]| && s.batch[1..][j] == f;
      assert s.batch[j + 1] == f;
    }
    Others(s, e0);
    if s.heap[e0.id].Repeat() && e0.id !in s.canceling {
      RescheduleSettles(s, e0, s.batch[1..]);
    } else {
      ReleaseSettles(s, e0, s.batch[1..]);
    }
  }

  lemma RescheduleSettles(s: State, e0: Entry, rest: seq<Entry>)
    requires Sorted(s.timers) && Distinct(s.timers) && Keyed(s.timers, s.heap) && 0 <= s.now
    requires e0.id in s.heap && s.heap[e0.id].Repeat() && e0.id !in s.canceling
    requires forall f :: f in s.timers ==> f.id in s.heap && f.id != e0.id
    requires forall f :: f in rest ==> f.id in s.heap && f.id != e0.id
    ensures OneSettled(s, e0, rest, ResetOne(s, e0).(batch := rest))
  {
    ScheduleKeeps(s, e0.id, s.heap[e0.id].Restart(s.now));
    hide Sorted, Distinct, Keyed, InsertEntry;
  }

  lemma ReleaseSettles(s: State, e0: Entry, rest: seq<Entry>)
    requires e0.id in s.heap && !(s.heap[e0.id].Repeat() && e0.id !in s.canceling)
    requires forall f :: f in s.timers ==> f.id in s.heap && f.id != e0.id
    requires forall f :: f in rest ==> f.id in s.heap && f.id != e0.id
    ensures OneSettled(s, e0, rest, ResetOne(s, e0).(batch := rest))
  {
  }

  lemma Others(s: State, e0: Entry)
    requires Keyed(s.timers, s.heap) && Keyed(s.batch, s.heap) && Disjoint(s.timers, s.batch) && e0 in s.batch
    ensures forall f :: f in s.timers ==> f.id in s.heap && f.id != e0.id
    ensures forall f :: f in s.batch ==> f.id in s.heap
  {
  }

  /** What was freed stays freed; what was scheduled and not in the batch stays as it is. */
  lemma {:induction false} ResetAllSettles(s: State)
    requires Structure(s)
    ensures Distinct(s.batch) && forall e :: e in s.batch ==> e.id in s.heap
    ensures var r := ResetAll(s, s.batch);
            && (forall e :: e in s.batch ==> Settled(s, e, r))
            && (forall e :: e in s.timers ==> Untouched(s, e, r))
            && (forall id :: id in s.freed ==> id in r.freed)
    decreases |s.batch|
  {
    hide Structure, ResetOne;
    BatchLive(s);
    if s.batch == [] {
      ScheduledLive(s);
    } else {
      ResetOneKeeps(s);
      ResetOneSettles(s);
      var s1 := ResetOne(s, s.batch[0]).(batch := s.batch[1..]);
      ResetAllSettles(s1);
      ResetAllKeeps(s1);
      StructureOwned(ResetAll(s1, s1.batch));
      SettleCombined(s, s1, ResetAll(s1, s1.batch));
    }
  }

  lemma ScheduledLive(s: State)
    requires Structure(s)
    ensures forall e :: e in s.timers ==> Untouched(s, e, s)
  {
  }

  lemma StructureOwned(s: State)
    requires Structure(s)
    ensures Owned(s)
  {
  }

  lemma SettleCombined(s: State, s1: State, r: State)
    requires s.batch != [] && s.batch[0].id in s.heap && Owned(r)
    requires Settled(s, s.batch[0], s1) && s1.canceling == s.canceling && s1.now == s.now && s1.batch == s.batch[1..]
    requires forall e :: e in s.timers ==> Untouched(s, e, s1)
    requires forall e :: e in s.batch[1..] ==> e.id in s.heap && e.id in s1.heap && s1.heap[e.id] == s.heap[e.id]
    requires forall id :: id in s.freed ==> id in s1.freed
    requires forall e :: e in s1.batch ==> e.id in s1.heap && Settled(s1, e, r)
    requires forall e :: e in s1.timers ==> Untouched(s1, e, r)
    requires forall id :: id in s1.freed ==> id in r.freed
    ensures forall e :: e in s.batch ==> e.id in s.heap && Settled(s, e, r)
    ensures forall e :: e in s.timers ==> Untouched(s, e, r)
  {
    forall e | e in s.batch ensures e.id in s.heap && Settled(s, e, r) {
      if e == s.batch[0] {
        assert e.id in r.freed ==> e.id !in r.heap;
      } else {
        assert e in s.batch[1..];
      }
    }
  }

  lemma EndSettles(s: State)
    requires Inv(s) && Enabled(s, End)
    ensures var r := EndStep(s);
            && !r.calling && r.batch == [] && r.nextId == s.nextId && r.clock == s.clock && r.now == s.now && r.cancelled == s.cancelled
            && (forall e :: e in s.batch ==> Settled(s, e, r))
            && (forall e :: e in s.timers ==> Untouched(s, e, r))
            && (forall id :: id in s.freed ==> id in r.freed)
            && (forall id :: id in s.cancelled ==> id !in r.heap)
  {
    hide Inv, Structure, Settled, Untouched;
    var s1 := s.(calling := false);
    assert Structure(s1) by { InvStructure(s); StructureSame(s, s1); }
    ResetAllSettles(s1);
    ResetAllKeeps(s1);
    EndKeeps(s);
    SettledSame(s, s1, ResetAll(s1, s.batch), EndStep(s));
    InvStructure(EndStep(s));
    NoneCancelledAtRest(EndStep(s));
  }

  lemma InvStructure(s: State)
    requires Inv(s)
    ensures Structure(s)
  {
  }

  /** After a batch: a repeating timer of it that was not cancelled is scheduled one interval after the time the batch
      was taken, every other timer of it is freed, and all other timers are as they were. */
  lemma EndExactly(es: seq<Event>)
    requires IsRun(INITIAL, es) && Enabled(Run(INITIAL, es), End)
    ensures var s := Run(INITIAL, es); var r := EndStep(s);
            && !r.calling && r.batch == []
            && (forall e :: e in s.batch ==> Settled(s, e, r))
            && (forall e :: e in s.timers ==> Untouched(s, e, r))
            && (forall id :: id in s.cancelled ==> id !in r.heap)
  {
    EveryRun(es);
    EndSettles(Run(INITIAL, es));
  }

  lemma SettledSame(s: State, s1: State, r1: State, r: State)
    requires s1 == s.(calling := s1.calling) && r1 == r.(kernel := r1.kernel)
    requires forall e :: e in s.batch ==> e.id in s1.heap && Settled(s1, e, r1)
    requires forall e :: e in s.timers ==> Untouched(s1, e, r1)
    ensures forall e :: e in s.batch ==> e.id in s.heap && Settled(s, e, r)
    ensures forall e :: e in s.timers ==> Untouched(s, e, r)
  {
    forall e | e in s.batch ensures e.id in s.heap && Settled(s, e, r) { assert Settled(s1, e, r1); }
    forall e | e in s.timers ensures Untouched(s, e, r) { assert Untouched(s1, e, r1); }
  }

  /** The timer is in none of the batches taken along the run. */
  predicate NeverBatched(s: State, es: seq<Event>, id: Id)
    requires IsRun(s, es)
    decreases |es|
  {
    es == [] ||
    ((es[0].Begin? ==> forall e :: e in BeginStep(s).batch ==> e.id != id) && NeverBatched(Step(s, es[0]), es[1..], id))
  }

  /** Once cancelled, before or during a batch, a timer appears in no later batch. */
  lemma {:induction false} CancelledForGood(s: State, es: seq<Event>, id: Id)
    requires Inv(s) && IsRun(s, es) && id in s.cancelled
    ensures NeverBatched(s, es, id)
    decreases |es|
  {
    hide Inv, EndStep;
    if es != [] {
      StepKeeps(s, es[0]);
      CancelledGrows(s, es[0]);
      CancelledForGood(Step(s, es[0]), es[1..], id);
      if es[0].Begin? { CancelledNotDue(s, id); }
    }
  }

  lemma CancelledGrows(s: State, e: Event)
    requires Inv(s) && Enabled(s, e)
    ensures s.cancelled <= Step(s, e).cancelled
  {
    if e.End? {
      var s1 := s.(calling := false);
      StructureSame(s, s1);
      ResetAllKeeps(s1);
    }
  }

  lemma CancelledNotDue(s: State, id: Id)
    requires Inv(s) && Enabled(s, Begin) && id in s.cancelled
    ensures forall e :: e in BeginStep(s).batch ==> e.id != id
  {
    NoneCancelledAtRest(s);
    BeginKeeps(s);
  }

  // ---------------------------------------------------------------- deadlines

  /** At rest with timers scheduled the kernel timer is pending or already fired, and it has fired once the clock
      passes both the earliest expiration and the shortest delay it can be armed for. */
  lemma NoMissedDeadline(es: seq<Event>)
    requires IsRun(INITIAL, es)
    ensures var s := Run(INITIAL, es);
            !s.calling && s.timers != [] ==>
              match s.kernel
              case Disarmed => false
              case Fired => true
              case Armed(deadline, since) =>
                && since <= s.clock < deadline <= Max(s.timers[0].when, since + MIN_DELAY)
                && (s.clock < s.timers[0].when || s.clock < since + MIN_DELAY)
  {
    EveryRun(es);
  }

  // ---------------------------------------------------------------- the read of the timerfd

  /** What other channels' handlers, called before `handleRead` in the same round, can do. */
  predicate Between(e: Event) { e.Add? || e.Cancel? || e.Tick? }

  predicate BecomesEarliest(s: State, when: int) { s.timers == [] || when < s.timers[0].when }

  /** The deadline the timerfd was armed for last along the way, if it was armed at all; `d` is the one before. */
  function LastArmed(s: State, es: seq<Event>, d: Option<int>): Option<int>
    requires IsRun(s, es)
    decreases |es|
  {
    if es == [] then d
    else
      LastArmed(Step(s, es[0]), es[1..],
                if es[0].Add? && BecomesEarliest(s, es[0].when) then Some(s.clock + Delay(es[0].when, s.clock)) else d)
  }

  /** Since the poll: readable, or armed anew. */
  predicate Pending(s: State, d: Option<int>) {
    && s.due && !s.calling
    && match d
       case None => s.kernel.Fired?
       case Some(x) => if s.clock < x then s.kernel.Armed? && s.kernel.deadline == x else s.kernel.Fired?
  }

  lemma {:induction false} PendingRun(s: State, es: seq<Event>, d: Option<int>)
    requires IsRun(s, es) && Pending(s, d) && forall e :: e in es ==> Between(e)
    ensures Pending(Run(s, es), LastArmed(s, es, d))
    decreases |es|
  {
    if es != [] {
      var e := es[0];
      assert Between(e);
      var next := if e.Add? && BecomesEarliest(s, e.when) then Some(s.clock + Delay(e.when, s.clock)) else d;
      PendingStep(s, e, d, next);
      PendingRun(Step(s, e), es[1..], next);
    }
  }

  lemma PendingStep(s: State, e: Event, d: Option<int>, next: Option<int>)
    requires Enabled(s, e) && Between(e) && Pending(s, d)
    requires next == if e.Add? && BecomesEarliest(s, e.when) then Some(s.clock + Delay(e.when, s.clock)) else d
    ensures Pending(Step(s, e), next)
  {
    hide InsertEntry, RemoveEntry;
  }

  /** Between the poll that saw the timerfd readable and `handleRead`, other handlers may add timers. The read then fails,
      where the source asserts that it does not, exactly when one of them became the earliest and the deadline it was
      armed for has not come by then. */
  lemma ReadFailsExactly(s: State, es: seq<Event>)
    requires Enabled(s, Poll) && IsRun(Step(s, Poll), es) && forall e :: e in es ==> Between(e)
    ensures var r := Run(Step(s, Poll), es); var d := LastArmed(Step(s, Poll), es, None);
            Enabled(r, Begin) && (!r.kernel.Fired? <==> d.Some? && r.clock < d.value)
  {
    PendingRun(Step(s, Poll), es, None);
  }

  /** Another handler adds a timer for an earlier time, itself past: the timerfd is no longer readable. */
  lemma ReadFails()
    ensures var es := [Add(200, 0), Tick(300), Poll, Add(100, 0)];
            IsRun(INITIAL, es) && Enabled(Run(INITIAL, es), Begin) && !Run(INITIAL, es).kernel.Fired?
  {
    var s1 := Step(INITIAL, Add(200, 0));
    assert s1.timers == [Entry(200, 0)] && s1.kernel == Armed(200, 0);
    var s2 := Step(s1, Tick(300));
    var s3 := Step(s2, Poll);
    var s4 := Step(s3, Add(100, 0));
    assert s4.kernel == Armed(400, 300);
    var es := [Add(200, 0), Tick(300), Poll, Add(100, 0)];
    assert es[1..] == [Tick(300), Poll, Add(100, 0)] && es[1..][1..] == [Poll, Add(100, 0)];
    assert es[1..][1..][1..] == [Add(100, 0)] && es[1..][1..][1..][1..] == [];
    assert Run(s4, []) == s4;
  }
}
