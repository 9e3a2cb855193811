/**
  What each call does to the tasks it concerns, said without the functions that compute it: which
  task changes state, where it goes on which list, what the call returns, and what stays as it was.
*/
module SchedEffects {
  import opened SchedInvariant
  import opened SchedLinks
  import opened SchedModel
  import opened SchedTheorems

  // ---------------------------------------------------------------------------------------------
  // The slot a call means
  // ---------------------------------------------------------------------------------------------

  /** A task with this identifier that is not deleted. */
  predicate Carries(s: Sched, t: Slot, id: nat) {
    s.pool[t].id == id && s.pool[t].state != DELETED
  }

  /** t is the first such slot. */
  predicate Names(s: Sched, t: Slot, id: nat) {
    Carries(s, t, id) && forall u: Slot :: u < t ==> !Carries(s, u, id)
  }

  lemma {:induction false} SlotNamed(s: Sched, id: nat, i: nat, t: Slot)
    requires i <= t && Names(s, t, id)
    ensures TaskSlot(s.pool, id, i) == To(t)
    decreases MAX_TASKS - i
  {
    if i < t {
      assert !Carries(s, i, id);
      SlotNamed(s, id, i + 1, t);
    }
  }

  lemma {:induction false} NoSlotNamed(s: Sched, id: nat)
    requires forall t: Slot :: !Carries(s, t, id)
    ensures TaskSlot(s.pool, id, 0) == Null
  {
    TaskSlotMeaning(s.pool, id, 0);
    if TaskSlot(s.pool, id, 0).To? {
      assert Carries(s, TaskSlot(s.pool, id, 0).slot, id);
    }
  }

  /** Identifiers of tasks name one slot. */
  lemma CarrierIsNamed(s: Sched, t: Slot, id: nat)
    requires Inv(s) && id != 0 && Carries(s, t, id)
    ensures Names(s, t, id)
  {
    assert Used(s, t);
  }

  predicate Free(s: Sched, t: Slot) {
    s.pool[t].state == DELETED || s.pool[t].id == 0
  }

  predicate FirstFree(s: Sched, t: Slot) {
    Free(s, t) && forall u: Slot :: u < t ==> !Free(s, u)
  }

  lemma {:induction false} SlotFree(s: Sched, i: nat, t: Slot)
    requires i <= t && FirstFree(s, t)
    ensures FreeSlot(s.pool, i) == To(t)
    decreases MAX_TASKS - i
  {
    if i < t {
      assert !Free(s, i);
      SlotFree(s, i + 1, t);
    }
  }

  // ---------------------------------------------------------------------------------------------
  // Lists
  // ---------------------------------------------------------------------------------------------

  /** r is q with t taken out, if it was on it, and all others in their order. */
  ghost predicate TakenOut(q: seq<Slot>, t: Slot, r: seq<Slot>) {
    if t in q then exists i :: 0 <= i < |q| && q[i] == t && r == q[..i] + q[i + 1..] else r == q
  }

  lemma {:induction false} FirstIndex(q: seq<Slot>, t: Slot) returns (k: nat)
    requires t in q
    ensures k < |q| && q[k] == t && t !in q[..k]
  {
    if q[0] == t {
      k := 0;
    } else {
      var i := FirstIndex(q[1..], t);
      k := i + 1;
      assert q[..k] == [q[0]] + q[1..][..i];
    }
  }

  lemma {:induction false} WithoutTakesOut(q: seq<Slot>, t: Slot)
    ensures TakenOut(q, t, Without(q, t))
  {
    if t in q {
      var k := FirstIndex(q, t);
      WithoutAt(q, t, k);
    } else {
      WithoutNone(q, t);
    }
  }

  /** t has this state and is on no list; everybody else is as before, in the same order. */
  ghost predicate Retired(s: Sched, r: Sched, t: Slot, st: TaskState) {
    var p := s.pool[t].priority;
    && r == s.(pool := s.pool[t := s.pool[t].(state := st)], ready := s.ready[p := r.ready[p]])
    && TakenOut(s.ready[p], t, r.ready[p])
    && forall l: Level :: t !in r.ready[l]
  }

  lemma RetireMeaning(s: Sched, t: Slot, st: TaskState)
    requires Inv(s)
    ensures Retired(s, Retire(s, t, st), t, st)
  {
    var p := s.pool[t].priority;
    WithoutTakesOut(s.ready[p], t);
    forall l: Level ensures t !in Retire(s, t, st).ready[l] {
      assert LevelOk(s, l) && LevelOk(s, p);
      WithoutMeaning(s.ready[l], t);
    }
  }

  /** t is READY and last on the list of its level; everybody else is as before. */
  predicate Queued(s: Sched, r: Sched, t: Slot) {
    var p := s.pool[t].priority;
    r == s.(pool := s.pool[t := s.pool[t].(state := READY)], ready := s.ready[p := s.ready[p] + [t]])
  }

  /** h, until then the first on the list of its level, runs; everybody else is as before. */
  predicate Dispatched(s: Sched, r: Sched, h: Slot) {
    var q := s.pool[h].priority;
    && s.ready[q] != [] && s.ready[q][0] == h
    && r == s.(pool := s.pool[h := s.pool[h].(state := RUNNING)], ready := s.ready[q := s.ready[q][1..]],
               currentTcb := To(h), currentTask := To(h))
  }

  /** h heads the list of its level, and no level above has any task. */
  predicate First(s: Sched, h: Slot) {
    var q := s.pool[h].priority;
    s.ready[q] != [] && s.ready[q][0] == h && forall k :: 0 <= k < q ==> s.ready[k] == []
  }

  lemma DispatchMeaning(s: Sched, h: Slot)
    requires First(s, h)
    ensures Dispatched(s, Dispatch(s, h), h)
  {
  }

  lemma FirstIsHighest(s: Sched, h: Slot)
    requires First(s, h)
    ensures Highest(s) == To(h)
  {
    HighestAt(s.ready, s.pool[h].priority, 0);
  }

  lemma NobodyReady(s: Sched)
    requires forall p: Level :: s.ready[p] == []
    ensures Highest(s) == Null
  {
    HighestMeaning(s.ready, 0);
  }

  // ---------------------------------------------------------------------------------------------
  // Yield
  // ---------------------------------------------------------------------------------------------

  /** A running task gives way to a better one: it goes last among its peers. */
  lemma YieldGivesWay(s: Sched, h: Slot)
    requires Inv(s) && s.running && CurrentIs(s, RUNNING) && First(s, h)
    requires s.pool[h].priority <= s.pool[s.currentTcb.slot].priority
    ensures exists m :: Queued(s, m, s.currentTcb.slot) && Dispatched(m, Yield(s), h)
  {
    var c := s.currentTcb.slot;
    var p := s.pool[c].priority;
    assert LevelOk(s, p) && LevelOk(s, s.pool[h].priority);
    assert h in s.ready[s.pool[h].priority] && c !in s.ready[p];
    var m := Release(s);
    assert m.ready[p] == s.ready[p] + [c];
    FirstIsHighest(m, h);
    WithoutLast(s.ready[p], c);
    RequeueLast(m, s.ready[p], c);
    DispatchMeaning(m, h);
    assert Queued(s, m, c);
  }

  lemma {:induction false} RequeueLast(m: Sched, q: seq<Slot>, c: Slot)
    requires CurrentIs(m, READY) && m.currentTcb == To(c) && m.ready[m.pool[c].priority] == q + [c]
    requires Without(q + [c], c) == q
    ensures Requeue(m) == m
  {
    var p := m.pool[c].priority;
    assert m.ready[p := q][p := q + [c]] == m.ready;
    assert m.pool[c := m.pool[c].(state := READY)] == m.pool;
  }

  /** With nobody ready at its level or above it stays current, READY and on its list. */
  lemma YieldStays(s: Sched)
    requires s.running && CurrentIs(s, RUNNING)
    requires forall k :: 0 <= k <= s.pool[s.currentTcb.slot].priority ==> s.ready[k] == []
    ensures Queued(s, Yield(s), s.currentTcb.slot)
  {
    var c := s.currentTcb.slot;
    var m := Release(s);
    assert m.ready[m.pool[c].priority] == [c];
    FirstIsHighest(m, c);
  }

  /** The current task has gone last on its list; everybody else is as before. */
  ghost predicate MovedLast(s: Sched, m: Sched, c: Slot, q: seq<Slot>) {
    var p := s.pool[c].priority;
    TakenOut(s.ready[p], c, q) && m == s.(ready := s.ready[p := q + [c]])
  }

  /** A current task that is READY but not first goes last among its peers, too. */
  lemma YieldRequeues(s: Sched, h: Slot)
    requires Inv(s) && s.running && CurrentIs(s, READY) && First(s, h) && s.currentTcb != To(h)
    ensures exists m, q :: MovedLast(s, m, s.currentTcb.slot, q) && Dispatched(m, Yield(s), h)
  {
    var c := s.currentTcb.slot;
    var p := s.pool[c].priority;
    var q := Without(s.ready[p], c);
    var m := Requeue(s);
    FirstIsHighest(s, h);
    WithoutTakesOut(s.ready[p], c);
    WithoutHead(s.ready[p], c);
    RequeueMoves(s, m, c, q);
    assert c in s.ready[p];
    assert First(m, h);
    DispatchMeaning(m, h);
    assert MovedLast(s, m, c, q) && Dispatched(m, Yield(s), h);
  }

  lemma {:induction false} WithoutHead(q: seq<Slot>, t: Slot)
    ensures q != [] && q[0] != t ==> Without(q, t) != [] && Without(q, t)[0] == q[0]
  {
  }

  lemma {:induction false} RequeueMoves(s: Sched, m: Sched, c: Slot, q: seq<Slot>)
    requires CurrentIs(s, READY) && s.currentTcb == To(c) && m == Requeue(s)
    requires q == Without(s.ready[s.pool[c].priority], c) && TakenOut(s.ready[s.pool[c].priority], c, q)
    ensures MovedLast(s, m, c, q)
  {
    var p := s.pool[c].priority;
    assert s.pool[c := s.pool[c].(state := READY)] == s.pool;
    assert s.ready[p := q][p := q + [c]] == s.ready[p := q + [c]];
  }

  /** From a current task that can no longer run, the first ready one takes over, if there is any. */
  lemma YieldMovesOn(s: Sched, h: Slot)
    requires s.running && !CurrentIs(s, RUNNING) && !CurrentIs(s, READY) && First(s, h) && s.currentTcb != To(h)
    ensures Dispatched(s, Yield(s), h)
  {
    FirstIsHighest(s, h);
    DispatchMeaning(s, h);
  }

  lemma YieldFindsNobody(s: Sched)
    requires s.running && !CurrentIs(s, RUNNING) && forall p: Level :: s.ready[p] == []
    ensures Yield(s) == s
  {
    NobodyReady(s);
  }

  /** A scheduler that is not running does not switch tasks. */
  lemma YieldBeforeStart(s: Sched)
    requires !s.running
    ensures Yield(s) == s
  {
  }

  /** A start makes the first ready task run, if there is any. */
  lemma StartDispatches(s: Sched)
    requires s.currentTcb == Null
    ensures forall h: Slot :: First(s, h) ==> Dispatched(s.(running := true), Start(s), h)
    ensures (forall p: Level :: s.ready[p] == []) ==> Start(s) == s.(running := true)
  {
    var s1 := s.(running := true);
    forall h: Slot | First(s, h) ensures Dispatched(s1, Start(s), h) {
      FirstIsHighest(s1, h);
      DispatchMeaning(s1, h);
    }
    if forall p: Level :: s.ready[p] == [] {
      NobodyReady(s1);
    }
  }

  // ---------------------------------------------------------------------------------------------
  // Tick
  // ---------------------------------------------------------------------------------------------

  /** There is a current task and a ready one of better priority. */
  ghost predicate Outranked(a: Sched) {
    a.currentTcb.To? &&
    exists t: Slot :: Ready(a, t) && a.pool[t].priority < a.pool[a.currentTcb.slot].priority
  }

  lemma OutrankedPreempts(a: Sched)
    requires Inv(a) && a.currentTcb.To?
    ensures Outranked(a) <==> Preempts(a)
  {
    HighestIsReady(a);
    if Preempts(a) {
      assert Ready(a, Highest(a).slot);
    }
  }

  lemma PreemptSwitches(a: Sched, r: Sched)
    requires Inv(a) && a.currentTcb.To? && r == Preempt(a)
    ensures r.currentTcb != a.currentTcb <==> Outranked(a)
    ensures if Outranked(a) then r == Yield(a) else r == a
  {
    OutrankedPreempts(a);
    if Preempts(a) {
      HighestIsReady(a);
      BetterIsDispatched(a, Highest(a).slot);
    }
  }

  lemma BetterIsDispatched(a: Sched, h: Slot)
    requires Inv(a) && a.running && a.currentTcb.To? && First(a, h)
    requires a.pool[h].priority < a.pool[a.currentTcb.slot].priority
    ensures Yield(a).currentTcb == To(h)
  {
    if CurrentIs(a, RUNNING) {
      YieldGivesWay(a, h);
    } else if CurrentIs(a, READY) {
      YieldRequeues(a, h);
    } else {
      YieldMovesOn(a, h);
    }
  }

  /** Once the delayed tasks that are due have been woken, a tick switches tasks exactly if a ready one
      has a smaller priority number than the current one. Equal priorities do not take turns by ticks. */
  lemma TickSwitches(s: Sched)
    requires Inv(s)
    ensures var a := Awaken(s, (s.tick + 1) % U32);
            && (Tick(s).currentTcb != s.currentTcb <==> Outranked(a))
            && Tick(s) == if Outranked(a) then Yield(a) else a
  {
    var a := Awaken(s, (s.tick + 1) % U32);
    AwakenInv(s, (s.tick + 1) % U32);
    TickIs(s, a);
    if a.currentTcb.To? {
      PreemptSwitches(a, Preempt(a));
    }
  }

  // ---------------------------------------------------------------------------------------------
  // Delete, suspend, resume
  // ---------------------------------------------------------------------------------------------

  /** task_delete takes the task it names off its list and marks it, and yields only for the current
      task. */
  lemma DeleteMeaning(s: Sched, id: nat, t: Slot)
    requires Inv(s) && Names(s, t, id)
    ensures var (r, status) := Delete(s, id);
            && status == OK
            && exists m :: Retired(s, m, t, DELETED) && r == if s.currentTask == To(t) then Yield(m) else m
  {
    SlotNamed(s, id, 0, t);
    RetireMeaning(s, t, DELETED);
    assert Retired(s, Retire(s, t, DELETED), t, DELETED);
  }

  lemma SuspendMeaning(s: Sched, id: nat, t: Slot)
    requires Inv(s) && Names(s, t, id)
    ensures var (r, status) := Suspend(s, id);
            && status == OK
            && exists m :: Retired(s, m, t, SUSPENDED) && r == if s.currentTask == To(t) then Yield(m) else m
  {
    SlotNamed(s, id, 0, t);
    RetireMeaning(s, t, SUSPENDED);
    assert Retired(s, Retire(s, t, SUSPENDED), t, SUSPENDED);
  }

  /** Only a suspended task is resumed: it becomes READY, last on its list. */
  lemma ResumeMeaning(s: Sched, id: nat, t: Slot)
    requires Names(s, t, id)
    ensures var (r, status) := Resume(s, id);
            if s.pool[t].state == SUSPENDED then status == OK && Queued(s, r, t) else status == INVALID_PARAM && r == s
  {
    SlotNamed(s, id, 0, t);
  }

  /** Without a task of that identifier the three calls fail and change nothing. */
  lemma NamesNobody(s: Sched, id: nat)
    requires forall t: Slot :: !Carries(s, t, id)
    ensures Delete(s, id) == (s, INVALID_PARAM)
    ensures Suspend(s, id) == (s, INVALID_PARAM)
    ensures Resume(s, id) == (s, INVALID_PARAM)
  {
    NoSlotNamed(s, id);
  }

  /** What a yield never changes: identifiers, priorities, wake-up times, and states in which a task
      cannot run; and it puts nobody on a list but the current task. */
  ghost predicate Settled(s: Sched, r: Sched) {
    && (forall u: Slot :: r.pool[u] == s.pool[u].(state := r.pool[u].state))
    && (forall u: Slot :: s.pool[u].state != READY && s.pool[u].state != RUNNING ==> r.pool[u] == s.pool[u])
    && forall u: Slot, l: Level :: u in r.ready[l] ==>
                                     u in s.ready[l] || (CurrentIs(s, RUNNING) && s.currentTcb.slot == u)
  }

  lemma YieldSettles(s: Sched)
    requires Inv(s)
    ensures Settled(s, Yield(s))
  {
    ReleaseInv(s);
    ScheduleSettles(Release(s));
  }

  lemma ScheduleSettles(s: Sched)
    requires Inv(s)
    ensures var r := Schedule(s);
            && (forall u: Slot :: r.pool[u] == s.pool[u].(state := r.pool[u].state))
            && (forall u: Slot :: s.pool[u].state != READY && s.pool[u].state != RUNNING ==> r.pool[u] == s.pool[u])
            && forall u: Slot, l: Level :: u in r.ready[l] ==> u in s.ready[l]
  {
    HighestIsReady(s);
    RequeueInv(s);
    if Highest(s).To? && Highest(s) != s.currentTcb {
      var h := Highest(s).slot;
      var m := Requeue(s);
      assert LevelOk(m, m.pool[h].priority);
      WithoutMeaning(m.ready[m.pool[h].priority], h);
    }
  }

  /** t is in this state and on no list, and nobody else loses anything but the processor. */
  predicate Parked(s: Sched, r: Sched, t: Slot, st: TaskState) {
    && r.pool[t] == s.pool[t].(state := st)
    && (forall l: Level :: t !in r.ready[l])
    && forall u: Slot :: u != t ==> r.pool[u] == s.pool[u].(state := r.pool[u].state)
  }

  lemma RetiredIsParked(s: Sched, m: Sched, t: Slot, st: TaskState)
    requires Inv(m) && Retired(s, m, t, st) && st != READY && st != RUNNING
    ensures Parked(s, m, t, st) && Parked(s, Yield(m), t, st)
  {
    YieldSettles(m);
  }

  /** Also when the task was the current one, and whoever the yield lets run then. */
  lemma DeletedForGood(s: Sched, id: nat, t: Slot)
    requires Inv(s) && Names(s, t, id) && !Listed(s, id)
    ensures Parked(s, Delete(s, id).0, t, DELETED)
  {
    SlotNamed(s, id, 0, t);
    RetireMeaning(s, t, DELETED);
    RetireInv(s, t, DELETED);
    RetiredIsParked(s, Retire(s, t, DELETED), t, DELETED);
  }

  lemma SuspendedParks(s: Sched, id: nat, t: Slot)
    requires Inv(s) && Names(s, t, id) && !Listed(s, id) && id != 0
    ensures Parked(s, Suspend(s, id).0, t, SUSPENDED)
  {
    SlotNamed(s, id, 0, t);
    RetireMeaning(s, t, SUSPENDED);
    RetireInv(s, t, SUSPENDED);
    RetiredIsParked(s, Retire(s, t, SUSPENDED), t, SUSPENDED);
  }

  // ---------------------------------------------------------------------------------------------
  // Create and delay
  // ---------------------------------------------------------------------------------------------

  /** A new task takes the first free slot, with the next identifier, READY and last on its list; each
      status exactly in its case. */
  lemma CreateMeaning(s: Sched, priority: nat)
    ensures var (r, status) := Create(s, priority);
            && (status == INVALID_PARAM <==> priority >= NUM_PRIORITY_LEVELS)
            && (status == NO_MEMORY <==> priority < NUM_PRIORITY_LEVELS && forall t: Slot :: !Free(s, t))
            && (status != OK ==> r == s)
            && forall t: Slot :: status == OK && FirstFree(s, t) ==>
                 r == s.(pool := s.pool[t := Task(READY, priority, s.nextId, 0)],
                         ready := s.ready[priority := s.ready[priority] + [t]],
                         nextId := (s.nextId + 1) % U32)
  {
    FreeSlotMeaning(s.pool, 0);
    if FreeSlot(s.pool, 0).To? {
      assert Free(s, FreeSlot(s.pool, 0).slot);
    }
    forall t: Slot | FirstFree(s, t) && priority < NUM_PRIORITY_LEVELS
      ensures Create(s, priority).0 ==
              s.(pool := s.pool[t := Task(READY, priority, s.nextId, 0)],
                 ready := s.ready[priority := s.ready[priority] + [t]],
                 nextId := (s.nextId + 1) % U32)
    {
      SlotFree(s, 0, t);
      var n := NewTask(s, t, priority);
      assert n.pool[t := n.pool[t].(state := READY)] == n.pool;
    }
  }

  /** task_delay notes the wake-up time, counted from now modulo 2^32, blocks the current task and
      yields. */
  lemma DelayMeaning(s: Sched, ticks: nat, t: Slot)
    requires Inv(s) && s.currentTask == To(t) && ticks > 0
    ensures var s1 := s.(pool := s.pool[t := s.pool[t].(wakeTime := (s.tick + ticks) % U32)]);
            exists m :: Retired(s1, m, t, BLOCKED) && Delay(s, ticks) == Yield(m)
    ensures Delay(s, ticks).pool[t] == s.pool[t].(wakeTime := (s.tick + ticks) % U32, state := BLOCKED)
  {
    var w := (s.tick + ticks) % U32;
    var s1 := s.(pool := s.pool[t := s.pool[t].(wakeTime := w)]);
    var m := Blocked(s, t, w);
    WakeTimeInv(s, t, w);
    RetireMeaning(s1, t, BLOCKED);
    assert m == Retire(s1, t, BLOCKED);
    DelayIs(s, ticks, m);
    BlockedInv(s, t, w);
    YieldSettles(m);
  }

  lemma NoDelay(s: Sched, ticks: nat)
    requires s.currentTask == Null || ticks == 0
    ensures Delay(s, ticks) == s
  {
  }
}
