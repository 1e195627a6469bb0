/** What every run of the timer queue keeps, and what follows from it. */
module TimerInvariant {
  import opened TimerSpec

  /** Each entry's key is its timer's expiration, and the timer is live. */
  ghost predicate Keyed(es: seq<Entry>, heap: map<Id, Timer>) {
    forall e :: e in es ==> e.id in heap && heap[e.id].expiration == e.when && e.when > 0
  }

  ghost predicate Disjoint(es: seq<Entry>, fs: seq<Entry>) {
    forall e, f :: e in es && f in fs ==> e.id != f.id
  }

  /** Every live timer is scheduled or in flight. */
  ghost predicate Covered(s: State) {
    forall id :: id in s.heap ==> Entry(s.heap[id].expiration, id) in s.timers || Entry(s.heap[id].expiration, id) in s.batch
  }

  /** Every timer ever created is live or was freed, once, and not both. */
  ghost predicate Owned(s: State) {
    && (forall id :: id in s.heap || id in s.freed <==> 0 <= id < s.nextId)
    && (forall id :: id in s.heap ==> id !in s.freed)
    && (forall i, j :: 0 <= i < j < |s.freed| ==> s.freed[i] != s.freed[j])
  }

  /** A cancelled timer is gone, or in flight and marked. */
  ghost predicate Marked(s: State) {
    && (forall id :: id in s.cancelled ==> id < s.nextId)
    && s.canceling <= s.cancelled
    && (forall id :: id in s.cancelled && id in s.heap ==> id in s.canceling && Entry(s.heap[id].expiration, id) in s.batch)
  }

  ghost predicate Structure(s: State) {
    && Sorted(s.timers) && Distinct(s.timers) && Distinct(s.batch)
    && Keyed(s.timers, s.heap) && Keyed(s.batch, s.heap)
    && Disjoint(s.timers, s.batch) && Covered(s) && Owned(s) && Marked(s)
    && 0 <= s.now <= s.clock
  }

  /** Only timers in flight are marked for cancellation; nothing is in flight at rest. */
  ghost predicate Flight(s: State) {
    && (!s.calling ==> s.batch == [])
    && (s.calling ==> s.ran <= |s.batch| && forall id :: id in s.canceling ==> exists e :: e in s.batch && e.id == id)
    && (forall e :: e in s.batch ==> e.when <= s.now)
  }

  /** At rest with timers scheduled, the kernel timer has fired or is armed in time for the earliest. */
  ghost predicate Punctual(s: State) {
    && (s.kernel.Armed? ==> s.kernel.since <= s.clock < s.kernel.deadline)
    && (!s.calling && s.timers != [] ==>
          s.kernel.Fired? || (s.kernel.Armed? && s.kernel.deadline <= Max(s.timers[0].when, s.kernel.since + MIN_DELAY)))
  }

  function Max(a: int, b: int): int { if a >= b then a else b }

  ghost predicate Inv(s: State) { Structure(s) && Flight(s) && Punctual(s) }

  // ---------------------------------------------------------------- structure

  /** A timer not yet scheduled can be entered; `insert` never meets its own key. */
  lemma ScheduleKeeps(s: State, id: Id, t: Timer)
    requires Sorted(s.timers) && Distinct(s.timers) && Keyed(s.timers, s.heap)
    requires t.expiration > 0 && forall e :: e in s.timers ==> e.id != id
    ensures Entry(t.expiration, id) !in s.timers
    ensures var s' := Schedule(s, id, t);
            && Sorted(s'.timers) && Distinct(s'.timers) && Keyed(s'.timers, s'.heap)
            && (forall e :: e in s'.timers <==> e == Entry(t.expiration, id) || e in s.timers)
  {
    var e := Entry(t.expiration, id);
    InsertedSorted(s.timers, e);
    DistinctFromSorted(InsertEntry(s.timers, e), s.heap[id := t]);
  }

  /** Entries whose keys are their own timers' expirations cannot repeat an id. */
  lemma DistinctFromSorted(ts: seq<Entry>, heap: map<Id, Timer>)
    requires Sorted(ts) && Keyed(ts, heap)
    ensures Distinct(ts)
  {
    forall i, j | 0 <= i < j < |ts| ensures ts[i].id != ts[j].id {
      assert ts[i] in ts && ts[j] in ts && Less(ts[i], ts[j]);
    }
  }

  /** A new timer leaves the timers in flight and the ownership of all others alone. */
  lemma NewTimer(s: State, s': State, e: Entry, t: Timer)
    requires Keyed(s.batch, s.heap) && Disjoint(s.timers, s.batch) && Covered(s) && Owned(s) && Marked(s)
    requires e.id == s.nextId && e.when == t.expiration && forall x :: x in s'.timers <==> x == e || x in s.timers
    requires s'.heap == s.heap[e.id := t] && s'.nextId == s.nextId + 1 && s'.batch == s.batch
    requires s'.freed == s.freed && s'.canceling == s.canceling && s'.cancelled == s.cancelled
    ensures Keyed(s'.batch, s'.heap) && Disjoint(s'.timers, s'.batch) && Covered(s') && Owned(s') && Marked(s')
  {
    assert e.id !in s.heap;
    assert forall f :: f in s.batch ==> f.id != e.id;
    assert forall id :: id in s.heap ==> s'.heap[id] == s.heap[id];
  }

  lemma AddKeeps(s: State, when: int, interval: nat)
    requires Structure(s) && when > 0
    ensures Entry(when, s.nextId) !in s.timers
    ensures Structure(AddStep(s, when, interval))
  {
    var t := Timer(when, interval);
    FreshId(s);
    ScheduleKeeps(s, s.nextId, t);
    hide Sorted, Distinct, InsertEntry, Keyed, Disjoint, Covered, Owned, Marked;
    var s' := AddStep(s, when, interval);
    NewTimer(s, s', Entry(when, s.nextId), t);
  }

  lemma FreshId(s: State)
    requires Keyed(s.timers, s.heap) && Owned(s)
    ensures forall e :: e in s.timers ==> e.id != s.nextId
  {
    assert s.nextId !in s.heap;
  }

  lemma FreeOwned(s: State, id: Id)
    requires Owned(s) && id in s.heap
    ensures Owned(Free(s, id))
  {
    var s' := Free(s, id);
    forall i, j | 0 <= i < j < |s'.freed| ensures s'.freed[i] != s'.freed[j] {
      if j == |s.freed| { assert s.freed[i] in s.freed; }
    }
    forall x ensures x in s'.heap || x in s'.freed <==> 0 <= x < s'.nextId {
      assert x in s'.freed <==> x in s.freed || x == id;
    }
  }

  lemma CancelKeeps(s: State, id: Id)
    requires Structure(s) && Flight(s) && id in s.heap
    ensures Structure(CancelStep(s, id))
  {
    var e := Entry(s.heap[id].expiration, id);
    var s' := CancelStep(s, id);
    if e in s.timers {
      RemovedSorted(s.timers, e);
      FreeOwned(s, id);
      RemovedKeeps(s, id);
    } else {
      assert e in s.batch;
      assert s.calling;
    }
  }

  lemma RemovedKeeps(s: State, id: Id)
    requires Structure(s) && id in s.heap && Entry(s.heap[id].expiration, id) in s.timers
    ensures var s' := CancelStep(s, id);
            && Distinct(s'.timers) && Keyed(s'.timers, s'.heap) && Keyed(s'.batch, s'.heap)
            && Disjoint(s'.timers, s'.batch) && Covered(s') && Marked(s')
  {
    var e := Entry(s.heap[id].expiration, id);
    var s' := CancelStep(s, id);
    RemovedSorted(s.timers, e);
    forall f | f in s.timers && f != e ensures f.id != id { assert f.id in s.heap; }
    assert Keyed(s'.timers, s'.heap);
    DistinctFromSorted(s'.timers, s'.heap);
    forall f | f in s.batch ensures f.id != id { assert e in s.timers; }
  }

  /** Splitting an ordered set in two. */
  lemma SplitSorted(ts: seq<Entry>, n: nat)
    requires Sorted(ts) && Distinct(ts) && n <= |ts|
    ensures Sorted(ts[n..]) && Sorted(ts[..n]) && Distinct(ts[n..]) && Distinct(ts[..n]) && Disjoint(ts[n..], ts[..n])
    ensures forall e :: e in ts <==> e in ts[..n] || e in ts[n..]
  {
    assert ts == ts[..n] + ts[n..];
    forall e, f | e in ts[n..] && f in ts[..n] ensures e.id != f.id {
      var i :| 0 <= i < |ts[n..]| && ts[n..][i] == e;
      var j :| 0 <= j < n && ts[..n][j] == f;
      assert ts[n + i] == e && ts[j] == f;
    }
  }

  /** At rest no cancelled timer is left. */
  lemma NoneCancelledAtRest(s: State)
    requires Structure(s) && s.batch == []
    ensures forall id :: id in s.cancelled ==> id !in s.heap
  {
  }

  lemma BeginMoves(s: State)
    requires s.batch == [] && Sorted(s.timers) && Distinct(s.timers) && Keyed(s.timers, s.heap) && Covered(s)
    ensures var s' := BeginStep(s);
            && Sorted(s'.timers) && Distinct(s'.timers) && Distinct(s'.batch) && Disjoint(s'.timers, s'.batch)
            && Keyed(s'.timers, s'.heap) && Keyed(s'.batch, s'.heap) && Covered(s')
  {
    SplitSorted(s.timers, DueCount(s.timers, s.clock));
    hide Sorted, Distinct, Disjoint;
  }

  lemma DueNow(s: State)
    requires Sorted(s.timers)
    ensures var s' := BeginStep(s); forall e :: e in s'.batch ==> e.when <= s'.now
  {
    var n := DueCount(s.timers, s.clock);
    DueExactly(s.timers, s.clock);
    forall e | e in s.timers[..n] ensures e.when <= s.clock {
      var j :| 0 <= j < n && s.timers[..n][j] == e;
      assert s.timers[j] == e;
    }
  }

  lemma BeginKeeps(s: State)
    requires Inv(s) && Enabled(s, Begin)
    ensures Structure(BeginStep(s)) && Flight(BeginStep(s))
  {
    BeginMoves(s);
    DueNow(s);
    NoneCancelledAtRest(s);
    OwnedSame(s, BeginStep(s));
    hide Sorted, Distinct, Disjoint, Owned, Keyed, Covered;
  }

  lemma OwnedSame(s: State, s': State)
    requires Owned(s) && s'.heap == s.heap && s'.freed == s.freed && s'.nextId == s.nextId
    ensures Owned(s')
  {
  }

  // ---------------------------------------------------------------- the end of a batch

  /** One turn of the loop in `reset`: the entry at the front of the batch is rescheduled or freed. */
  lemma ResetOneKeeps(s: State)
    requires Structure(s) && s.batch != []
    ensures s.batch[0].id in s.heap
    ensures Structure(ResetOne(s, s.batch[0]).(batch := s.batch[1..]))
  {
    var e := s.batch[0];
    assert e in s.batch && e.id in s.heap;
    var rest := s.batch[1..];
    assert forall f :: f in rest ==> f in s.batch;
    forall f | f in rest ensures f.id != e.id {
      var j :| 0 <= j < |rest| && rest[j] == f;
      assert s.batch[j + 1] == f;
    }
    assert forall f :: f in s.batch <==> f == e || f in rest;
    assert forall f :: f in s.timers ==> f.id != e.id;
    if s.heap[e.id].Repeat() && e.id !in s.canceling { RescheduledKeeps(s, e, rest); } else { ReleasedKeeps(s, e, rest); }
  }

  lemma RescheduledKeeps(s: State, e: Entry, rest: seq<Entry>)
    requires Structure(s) && e.id in s.heap && s.heap[e.id].Repeat() && e.id !in s.canceling
    requires Distinct(rest) && s.heap[e.id].expiration == e.when
    requires forall f :: f in s.batch <==> f == e || f in rest
    requires forall f :: f in rest ==> f.id != e.id
    requires forall f :: f in s.timers ==> f.id != e.id
    ensures Structure(ResetOne(s, e).(batch := rest))
  {
    var t := s.heap[e.id].Restart(s.now);
    ScheduleKeeps(s, e.id, t);
    var s' := Schedule(s, e.id, t).(batch := rest);
    assert forall id :: id in s.heap && id != e.id ==> s'.heap[id] == s.heap[id];
    assert Covered(s') by {
      forall id | id in s'.heap ensures Entry(s'.heap[id].expiration, id) in s'.timers || Entry(s'.heap[id].expiration, id) in s'.batch {
        if id != e.id { assert id in s.heap; }
      }
    }
    assert Keyed(s'.batch, s'.heap);
    assert Owned(s');
    assert Marked(s');
  }

  lemma ReleasedKeeps(s: State, e: Entry, rest: seq<Entry>)
    requires Structure(s) && e.id in s.heap
    requires Distinct(rest) && s.heap[e.id].expiration == e.when
    requires forall f :: f in s.batch <==> f == e || f in rest
    requires forall f :: f in rest ==> f.id != e.id
    requires forall f :: f in s.timers ==> f.id != e.id
    ensures Structure(Free(s, e.id).(batch := rest))
  {
    FreeOwned(s, e.id);
    var s' := Free(s, e.id).(batch := rest);
    assert Covered(s') by {
      forall id | id in s'.heap ensures Entry(s'.heap[id].expiration, id) in s'.timers || Entry(s'.heap[id].expiration, id) in s'.batch {
        assert id in s.heap && id != e.id;
      }
    }
    assert Keyed(s'.timers, s'.heap) && Keyed(s'.batch, s'.heap);
    assert Marked(s');
  }

  lemma {:induction false} ResetAllKeeps(s: State)
    requires Structure(s)
    ensures forall e :: e in s.batch ==> e.id in s.heap
    ensures Structure(ResetAll(s, s.batch)) && ResetAll(s, s.batch).batch == []
    ensures var r := ResetAll(s, s.batch);
            r.calling == s.calling && r.now == s.now && r.clock == s.clock && r.kernel == s.kernel
            && r.canceling == s.canceling && r.cancelled == s.cancelled && r.called == s.called && r.nextId == s.nextId
    decreases |s.batch|
  {
    hide Structure, ResetOne;
    BatchLive(s);
    if s.batch != [] {
      ResetOneKeeps(s);
      ResetOneFrame(s, s.batch[0]);
      ResetAllKeeps(ResetOne(s, s.batch[0]).(batch := s.batch[1..]));
    }
  }

  lemma BatchLive(s: State)
    requires Structure(s)
    ensures Distinct(s.batch) && forall e :: e in s.batch ==> e.id in s.heap
  {
  }

  lemma ResetOneFrame(s: State, e: Entry)
    requires e.id in s.heap
    ensures var r := ResetOne(s, e);
            r.calling == s.calling && r.now == s.now && r.clock == s.clock && r.kernel == s.kernel
            && r.canceling == s.canceling && r.cancelled == s.cancelled && r.called == s.called && r.nextId == s.nextId
  {
  }

  lemma EndKeeps(s: State)
    requires Inv(s) && Enabled(s, End)
    ensures Inv(EndStep(s))
  {
    hide Structure, ResetAll;
    var s1 := s.(calling := false);
    assert Structure(s1) by { StructureSame(s, s1); }
    ResetAllKeeps(s1);
    var s2 := ResetAll(s1, s1.batch);
    if s2.timers != [] { EarliestLive(s2); }
    var s3 := EndStep(s);
    StructureSame(s2, s3);
  }

  lemma StructureSame(s: State, s': State)
    requires Structure(s)
    requires s' == s.(calling := s'.calling, kernel := s'.kernel, ran := s'.ran, called := s'.called)
    ensures Structure(s')
  {
  }

  lemma EarliestLive(s: State)
    requires Structure(s) && s.timers != []
    ensures s.timers[0].id in s.heap && s.heap[s.timers[0].id].expiration == s.timers[0].when > 0
  {
  }

  // ---------------------------------------------------------------- every step, every run

  lemma AddPunctual(s: State, when: int, interval: nat)
    requires Inv(s) && when > 0
    ensures Punctual(AddStep(s, when, interval)) && Flight(AddStep(s, when, interval))
  {
    AddKeeps(s, when, interval);
    InsertedSorted(s.timers, Entry(when, s.nextId));
  }

  /** Cancelling the earliest timer leaves the kernel timer early, never late. */
  lemma CancelPunctual(s: State, id: Id)
    requires Inv(s) && id in s.heap
    ensures Punctual(CancelStep(s, id)) && Flight(CancelStep(s, id))
  {
    hide Structure;
    var e := Entry(s.heap[id].expiration, id);
    if e in s.timers { RemovedLater(s, e); } else { InFlight(s, id); }
  }

  /** The earliest entry after a removal is no earlier than before. */
  lemma RemovedLater(s: State, e: Entry)
    requires Structure(s) && e in s.timers
    ensures var r := RemoveEntry(s.timers, e); r != [] ==> s.timers[0].when <= r[0].when
  {
    var r := RemoveEntry(s.timers, e);
    RemovedSorted(s.timers, e);
    if r != [] {
      assert r[0] in r;
      var j :| 0 <= j < |s.timers| && s.timers[j] == r[0];
      assert j > 0 ==> Less(s.timers[0], s.timers[j]);
    }
  }

  lemma InFlight(s: State, id: Id)
    requires Structure(s) && id in s.heap && Entry(s.heap[id].expiration, id) !in s.timers
    ensures Entry(s.heap[id].expiration, id) in s.batch
  {
  }

  lemma StepKeeps(s: State, e: Event)
    requires Inv(s) && Enabled(s, e)
    ensures Inv(Step(s, e))
  {
    match e
    case Add(when, interval) =>
      AddKeeps(s, when, interval);
      AddPunctual(s, when, interval);
    case Cancel(id) =>
      CancelKeeps(s, id);
      CancelPunctual(s, id);
    case Tick(clock) => TickKeeps(s, clock);
    case Poll => PollKeeps(s);
    case Begin => BeginKeeps(s);
    case RunNext => StructureSame(s, RunStep(s));
    case End => EndKeeps(s);
  }

  lemma PollKeeps(s: State)
    requires Inv(s)
    ensures Inv(s.(due := true))
  {
    hide Sorted, Distinct, Disjoint, Keyed;
    assert Owned(s.(due := true)) by { OwnedSame(s, s.(due := true)); }
  }

  lemma TickKeeps(s: State, clock: int)
    requires Inv(s) && clock >= s.clock
    ensures Inv(TickStep(s, clock))
  {
    hide Sorted, Distinct, Disjoint, Owned, Keyed, Covered, Marked;
    var s' := TickStep(s, clock);
    assert Owned(s') by { OwnedSame(s, s'); }
    assert Covered(s') && Marked(s') by { SameSets(s, s'); }
  }

  lemma SameSets(s: State, s': State)
    requires s' == s.(clock := s'.clock, kernel := s'.kernel) && Covered(s) && Marked(s)
    ensures Covered(s') && Marked(s')
  {
  }

  lemma InitialHolds()
    ensures Inv(INITIAL)
  {
  }

  lemma {:induction false} RunKeeps(s: State, es: seq<Event>)
    requires Inv(s) && IsRun(s, es)
    ensures Inv(Run(s, es))
    decreases |es|
  {
    hide Inv, Step;
    if es != [] {
      StepKeeps(s, es[0]);
      RunKeeps(Step(s, es[0]), es[1..]);
    }
  }

  /** Every state of every run, with callbacks adding and cancelling while a batch is in flight. */
  lemma EveryRun(es: seq<Event>)
    requires IsRun(INITIAL, es)
    ensures Inv(Run(INITIAL, es))
  {
    InitialHolds();
    RunKeeps(INITIAL, es);
  }
}
