/** Whom the scheduler runs: priorities, round robin, and tasks that delay themselves. */
module SchedTheorems {
  import opened SchedInvariant
  import opened SchedModel

  // ---------------------------------------------------------------------------------------------
  // Priorities
  // ---------------------------------------------------------------------------------------------

  /** The current task can run and no ready task has a smaller priority number. */
  ghost predicate BestRuns(s: Sched) {
    && s.currentTcb.To?
    && (CurrentIs(s, RUNNING) || CurrentIs(s, READY))
    && forall t: Slot :: Ready(s, t) ==> s.pool[s.currentTcb.slot].priority <= s.pool[t].priority
  }

  lemma DispatchesBest(s: Sched)
    requires Inv(s) && !CurrentIs(s, RUNNING) && Highest(s).To?
    ensures BestRuns(Schedule(s))
  {
    HighestIsReady(s);
    var next := Highest(s);
    if next != s.currentTcb {
      RequeueInv(s);
      var r, t := Schedule(s), next.slot;
      forall u: Slot | Ready(r, u) ensures r.pool[t].priority <= r.pool[u].priority {
        assert Ready(s, u);
      }
    }
  }

  /** The current task can run after a yield, and is a best one, exactly if there was a ready task
      or the caller was running. */
  lemma YieldRunsBest(s: Sched)
    requires Inv(s) && s.running
    ensures BestRuns(Yield(s)) <==> CurrentIs(s, RUNNING) || exists t: Slot :: Ready(s, t)
  {
    var r := Release(s);
    ReleaseInv(s);
    HighestIsReady(r);
    if CurrentIs(s, RUNNING) || exists t: Slot :: Ready(s, t) {
      if CurrentIs(s, RUNNING) {
        assert Ready(r, s.currentTcb.slot);
      }
      DispatchesBest(r);
    } else if CurrentIs(s, READY) {
      assert Ready(s, s.currentTcb.slot);
    }
  }

  /** After a tick no ready task has a smaller priority number than the current one. */
  lemma TickPreempts(s: Sched, t: Slot)
    requires Inv(s) && Tick(s).currentTcb.To? && Ready(Tick(s), t)
    ensures Tick(s).pool[Tick(s).currentTcb.slot].priority <= Tick(s).pool[t].priority
  {
    var a := Awaken(s, (s.tick + 1) % U32);
    AwakenInv(s, (s.tick + 1) % U32);
    TickIs(s, a);
    PreemptsEnough(a, Preempt(a), t);
  }

  lemma PreemptsEnough(s: Sched, r: Sched, t: Slot)
    requires Inv(s) && r == Preempt(s) && r.currentTcb.To? && Ready(r, t)
    ensures r.pool[r.currentTcb.slot].priority <= r.pool[t].priority
  {
    HighestIsReady(s);
    if Preempts(s) {
      assert Ready(s, Highest(s).slot);
      YieldRunsBest(s);
    }
  }

  lemma PreemptRunsBest(s: Sched, r: Sched)
    requires Inv(s) && r == Preempt(s)
    ensures BestRuns(r) <==> Preempts(s) || CurrentIs(s, RUNNING) || CurrentIs(s, READY)
  {
    HighestIsReady(s);
    if Preempts(s) {
      assert Ready(s, Highest(s).slot);
      YieldRunsBest(s);
    } else if CurrentIs(s, RUNNING) || CurrentIs(s, READY) {
      forall t: Slot | Ready(r, t) ensures r.pool[r.currentTcb.slot].priority <= r.pool[t].priority {
        PreemptsEnough(s, r, t);
      }
    }
  }

  /** The current task can run after a tick exactly if the tick preempts or it could before. A task
      that blocks, suspends or deletes itself with nobody ready stays current, and tasks that become
      ready later wait for a yield unless their priority number is smaller. */
  lemma TickRunsBest(s: Sched)
    requires Inv(s)
    ensures var a := Awaken(s, (s.tick + 1) % U32);
            BestRuns(Tick(s)) <==> Preempts(a) || CurrentIs(a, RUNNING) || CurrentIs(a, READY)
    ensures s.delayed == [] ==>
              (BestRuns(Tick(s)) <==> Preempts(s) || CurrentIs(s, RUNNING) || CurrentIs(s, READY))
  {
    var a := Awaken(s, (s.tick + 1) % U32);
    AwakenInv(s, (s.tick + 1) % U32);
    TickIs(s, a);
    PreemptRunsBest(a, Preempt(a));
  }

  // ---------------------------------------------------------------------------------------------
  // What the excluded calls do
  // ---------------------------------------------------------------------------------------------

  /** From a running task with another one ready, a start makes two tasks run. */
  lemma TwoRun(s: Sched)
    requires Inv(s) && CurrentIs(s, RUNNING) && Highest(s).To?
    ensures var c, n, r := s.currentTcb.slot, Highest(s).slot, Start(s);
            c != n && r.pool[c].state == RUNNING && r.pool[n].state == RUNNING
  {
    HighestIsReady(s);
  }

  /** Two tasks and two starts suffice. */
  lemma SecondStart()
    ensures var calls := [CallCreate(1), CallCreate(1), CallStart];
            var r := Run(Initial(), calls + [CallStart]);
            Legal(calls) && r.pool[0].state == RUNNING && r.pool[1].state == RUNNING
  {
    var calls := [CallCreate(1), CallCreate(1), CallStart];
    var s := AfterTwoCreates();
    var s1 := Start(s);
    assert HighestFrom(s.ready, 1) == To(0);
    assert Highest(s) == To(0);
    assert s1.ready[1] == [1];
    assert HighestFrom(s1.ready, 1) == To(1);
    assert Highest(s1) == To(1);
    var c1 := [CallCreate(1), CallStart, CallStart];
    assert (calls + [CallStart])[1..] == c1 && c1[1..] == [CallStart, CallStart];
    assert [CallStart, CallStart][1..] == [CallStart] && [CallStart][1..] == [];
    assert Run(Step(s, CallStart), [CallStart]) == Start(s1);
    assert Run(s, [CallStart, CallStart]) == Start(s1);
  }

  lemma AfterTwoCreates() returns (s: Sched)
    ensures s == Step(Step(Initial(), CallCreate(1)), CallCreate(1))
    ensures s.ready[0] == [] && s.ready[1] == [0, 1] && s.currentTcb == Null
    ensures s.pool[0] == Task(READY, 1, 1, 0) && s.pool[1] == Task(READY, 1, 2, 0)
  {
    var s0 := Initial();
    var s1 := Step(s0, CallCreate(1));
    assert FreeSlot(s0.pool, 0) == To(0);
    assert s1.pool[0] == Task(READY, 1, 1, 0) && s1.ready[1] == [0];
    assert FreeSlot(s1.pool, 1) == To(1);
    assert FreeSlot(s1.pool, 0) == To(1);
    s := Step(s1, CallCreate(1));
  }

  lemma {:induction false} SameSlot(pool: Pool, pool': Pool, id: nat, t: Slot, i: nat)
    requires i <= MAX_TASKS && TaskSlot(pool, id, i) == To(t)
    requires forall u: Slot :: u != t ==> pool'[u] == pool[u]
    requires pool'[t].id == id && pool'[t].state != DELETED
    ensures TaskSlot(pool', id, i) == To(t)
    decreases MAX_TASKS - i
  {
    if pool[i].id != id || pool[i].state == DELETED {
      SameSlot(pool, pool', id, t, i + 1);
    }
  }

  /** Where task_suspend(0) finds an unused slot it leaves all lists in order, but it prepares the
      next call: task_resume(0) puts that slot on a ready list. */
  lemma UnusedSlotQueued(s: Sched, t: Slot)
    requires Inv(s) && TaskSlot(s.pool, 0, 0) == To(t)
    ensures var s1 := Suspend(s, 0).0;
            var r := Resume(s1, 0).0;
            && s1 == SetState(s, t, SUSPENDED) && ListsOk(s1)
            && r == AddTask(s1, t) && r.ready == s.ready[0 := s.ready[0] + [t]]
            && !Used(r, t) && !LevelOk(r, 0)
  {
    TaskSlotMeaning(s.pool, 0, 0);
    MarkedLists(s, t);
    var s1 := SetState(s, t, SUSPENDED);
    assert s.currentTask != To(t);
    SameSlot(s.pool, s1.pool, 0, t, 0);
    var r := AddTask(s1, t);
    assert t in r.ready[0];
  }

  /** So suspending and resuming identifier 0 keeps the lists in order exactly if it finds no slot. */
  lemma SuspendThenResume(s: Sched)
    requires Inv(s)
    ensures ListsOk(Resume(Suspend(s, 0).0, 0).0) <==> TaskSlot(s.pool, 0, 0) == Null
  {
    if TaskSlot(s.pool, 0, 0).To? {
      UnusedSlotQueued(s, TaskSlot(s.pool, 0, 0).slot);
    }
  }

  /** And with no other task of priority 0 the next yield makes the unused slot the current task. */
  lemma UnusedSlotRuns(s: Sched, t: Slot)
    requires Inv(s) && s.running && s.ready[0] == [] && TaskSlot(s.pool, 0, 0) == To(t)
    ensures var r := Yield(Resume(Suspend(s, 0).0, 0).0);
            r.currentTcb == To(t) && CurrentIs(r, RUNNING) && !Used(r, t)
  {
    UnusedSlotQueued(s, t);
    DispatchesHead(Resume(Suspend(s, 0).0, 0).0, t);
  }

  lemma DispatchesHead(s: Sched, t: Slot)
    requires s.running && s.ready[0] == [t] && s.currentTcb != To(t)
    ensures Yield(s).currentTcb == To(t) && Yield(s).pool[t] == s.pool[t].(state := RUNNING)
  {
    var r := Release(s);
    assert r.ready[0][0] == t;
    assert Highest(r) == To(t);
  }

  // ---------------------------------------------------------------------------------------------
  // Round robin
  // ---------------------------------------------------------------------------------------------

  /** The current task and those ready at its level, in the order in which they will run. */
  function Ring(s: Sched): seq<Slot>
    requires s.currentTcb.To?
  {
    [s.currentTcb.slot] + s.ready[s.pool[s.currentTcb.slot].priority]
  }

  /** A running task with peers, and nothing ready above its level. */
  ghost predicate Shares(s: Sched) {
    && Inv(s) && s.running && CurrentIs(s, RUNNING)
    && var p := s.pool[s.currentTcb.slot].priority;
       s.ready[p] != [] && forall k :: 0 <= k < p ==> s.ready[k] == []
  }

  function RotateLeft(q: seq<Slot>): seq<Slot>
    requires q != []
  {
    q[1..] + [q[0]]
  }

  /** s after the turn has passed from slot t to slot u of the same level. */
  function PassTurn(s: Sched, t: Slot, u: Slot, q: seq<Slot>): Sched {
    s.(pool := s.pool[t := s.pool[t].(state := READY)][u := s.pool[u].(state := RUNNING)],
       ready := s.ready[s.pool[t].priority := q],
       currentTcb := To(u), currentTask := To(u))
  }

  /** A yield takes the turn from the head of the ring to the next one and changes nothing else:
      putting the task back twice, in scheduler_yield and again in schedule, is harmless. */
  lemma YieldPassesTurn(s: Sched)
    requires Shares(s)
    ensures var c := s.currentTcb.slot;
            var q := s.ready[s.pool[c].priority];
            Yield(s) == PassTurn(s, c, q[0], RotateLeft(Ring(s))[1..])
    ensures Ring(Yield(s)) == RotateLeft(Ring(s))
    ensures Shares(Yield(s))
  {
    var c := s.currentTcb.slot;
    var p := s.pool[c].priority;
    var q := s.ready[p];
    var r := Release(s);
    assert LevelOk(s, p);
    assert c !in q && q[0] in q;
    assert r.ready == s.ready[p := q + [c]];
    assert HighestFrom(r.ready, 0) == To(q[0]) by {
      HighestAt(r.ready, p, 0);
      assert (q + [c])[0] == q[0];
    }
    WithoutLast(q, c);
    var r' := Requeue(r);
    assert r'.pool == r.pool;
    assert r'.ready == r.ready[p := Without(q + [c], c) + [c]];
    assert r'.ready == r.ready;
    assert Without(q + [c], q[0]) == q[1..] + [c];
    assert Yield(s) == Dispatch(r', q[0]);
    assert s.pool[q[0]].priority == p;
    assert RotateLeft(Ring(s)) == q + [c];
    YieldInv(s);
  }

  lemma {:induction false} HighestAt(ready: Levels, p: Level, k: nat)
    requires k <= p && ready[p] != [] && forall l :: k <= l < p ==> ready[l] == []
    ensures HighestFrom(ready, k) == To(ready[p][0])
    decreases p - k
  {
    if k < p {
      HighestAt(ready, p, k + 1);
    }
  }

  function Yields(s: Sched, n: nat): Sched {
    if n == 0 then s else Yield(Yields(s, n - 1))
  }

  /** States of which one arises from the other by passing turns among q, at level p. */
  ghost predicate TurnsApart(s: Sched, r: Sched, q: set<Slot>, p: Level) {
    && r == s.(pool := r.pool, ready := r.ready, currentTcb := r.currentTcb, currentTask := r.currentTask)
    && r.ready == s.ready[p := r.ready[p]]
    && forall t: Slot :: r.pool[t] == if t in q then s.pool[t].(state := r.pool[t].state) else s.pool[t]
  }

  ghost function RingSet(s: Sched): set<Slot>
    requires s.currentTcb.To?
  {
    set t | t in Ring(s)
  }

  function RingLevel(s: Sched): Level
    requires s.currentTcb.To?
  {
    s.pool[s.currentTcb.slot].priority
  }

  lemma OneTurn(s: Sched)
    requires Shares(s)
    ensures var r := Yield(s);
            && Shares(r) && Ring(r) == RotateLeft(Ring(s)) && RingSet(r) == RingSet(s) && RingLevel(r) == RingLevel(s)
            && TurnsApart(s, r, RingSet(s), RingLevel(s))
  {
    YieldPassesTurn(s);
    var q := Ring(s);
    assert LevelOk(s, RingLevel(s));
    assert q[0] in q && q[1] in q;
    assert forall t :: t in RotateLeft(q) <==> t in q;
  }

  lemma RotateMore(q: seq<Slot>, n: nat)
    requires 0 < n <= |q|
    ensures RotateLeft(q[n - 1..] + q[..n - 1]) == q[n..] + q[..n]
  {
  }

  /** r is s with the ring turned n places. */
  ghost predicate Turned(s: Sched, r: Sched, n: nat)
    requires s.currentTcb.To? && n <= |Ring(s)|
  {
    && Shares(r) && Ring(r) == Ring(s)[n..] + Ring(s)[..n]
    && RingSet(r) == RingSet(s) && RingLevel(r) == RingLevel(s)
    && TurnsApart(s, r, RingSet(s), RingLevel(s))
  }

  lemma TurnsTogether(s: Sched, r: Sched, r': Sched, q: set<Slot>, p: Level)
    requires TurnsApart(s, r, q, p) && TurnsApart(r, r', q, p)
    ensures TurnsApart(s, r', q, p)
  {
  }

  lemma TurnedMore(s: Sched, r: Sched, n: nat)
    requires s.currentTcb.To? && 0 < n <= |Ring(s)| && Turned(s, r, n - 1)
    ensures Turned(s, Yield(r), n)
  {
    OneTurn(r);
    RotateMore(Ring(s), n);
    TurnsTogether(s, r, Yield(r), RingSet(s), RingLevel(s));
  }

  /** After n yields the ring has turned n places, and nothing but the turn has changed. */
  lemma {:induction false} RingTurns(s: Sched, n: nat)
    requires Shares(s) && n <= |Ring(s)|
    ensures Turned(s, Yields(s, n), n)
  {
    if n > 0 {
      RingTurns(s, n - 1);
      TurnedMore(s, Yields(s, n - 1), n);
    } else {
      assert Ring(s)[0..] + Ring(s)[..0] == Ring(s);
    }
  }

  lemma SameTurn(s: Sched, r: Sched)
    requires Shares(s) && Shares(r) && Ring(r) == Ring(s) && RingLevel(r) == RingLevel(s)
    requires TurnsApart(s, r, RingSet(s), RingLevel(s))
    ensures r == s
  {
    var p, c := RingLevel(s), s.currentTcb.slot;
    assert r.currentTcb.slot == Ring(r)[0] == c;
    assert r.ready[p] == Ring(r)[1..] == s.ready[p];
    assert LevelOk(s, p) && LevelOk(r, p);
    forall t: Slot ensures r.pool[t] == s.pool[t] {
      if t in RingSet(s) && t != c {
        assert t in s.ready[p] && t in r.ready[p];
      }
    }
    assert r.pool == s.pool;
  }

  lemma {:induction false} NthTurn(s: Sched, n: nat)
    requires Shares(s) && n < |Ring(s)|
    ensures Yields(s, n).currentTcb == To(Ring(s)[n])
  {
    RingTurns(s, n);
    assert Yields(s, n).currentTcb.slot == Ring(Yields(s, n))[0];
  }

  lemma {:induction false} FullRound(s: Sched, n: nat)
    requires Shares(s) && n == |Ring(s)|
    ensures Yields(s, n) == s
  {
    RingTurns(s, n);
    assert Ring(s)[n..] + Ring(s)[..n] == Ring(s);
    SameTurn(s, Yields(s, n));
  }

  /** k tasks sharing a level each run once in k yields, in their order, and then everything is as
      it was. */
  lemma {:induction false} RoundRobin(s: Sched, n: nat)
    requires Shares(s) && n < |Ring(s)|
    ensures Yields(s, n).currentTcb == To(Ring(s)[n])
    ensures Yields(s, |Ring(s)|) == s
    ensures Distinct(Ring(s))
  {
    NthTurn(s, n);
    FullRound(s, |Ring(s)|);
    assert LevelOk(s, RingLevel(s));
    assert s.currentTcb.slot !in s.ready[RingLevel(s)];
  }

  // ---------------------------------------------------------------------------------------------
  // Delaying
  // ---------------------------------------------------------------------------------------------

  predicate SameBlocked(s: Sched, r: Sched, t: Slot) {
    r.pool[t].state == BLOCKED && r.pool[t].id == s.pool[t].id
  }

  /** The delayed list stays empty, so a blocked task never becomes ready again by itself: of all
      calls only deleting or suspending that very task moves it out of BLOCKED. */
  lemma BlockedStays(s: Sched, c: Call, t: Slot)
    requires Sound(s) && c != CallSuspend(0) && s.pool[t].state == BLOCKED
    ensures SameBlocked(s, Step(s, c), t) || c == CallDelete(s.pool[t].id) || c == CallSuspend(s.pool[t].id)
  {
    match c
    case CallCreate(priority) => CreateKeepsBlocked(s, priority, t, Step(s, c));
    case CallDelete(id) => DeleteKeepsBlocked(s, id, t, Step(s, c));
    case CallSuspend(id) => SuspendKeepsBlocked(s, id, t, Step(s, c));
    case CallResume(id) => ResumeKeepsBlocked(s, id, t, Step(s, c));
    case CallDelay(ticks) => DelayKeepsBlocked(s, ticks, t);
    case CallYield => YieldKeepsBlocked(s, t);
    case CallTick => TickKeepsBlocked(s, t);
    case CallStart => StartKeepsBlocked(s, t);
  }

  lemma CreateKeepsBlocked(s: Sched, priority: nat, t: Slot, r: Sched)
    requires Inv(s) && s.pool[t].state == BLOCKED && r == Create(s, priority).0
    ensures SameBlocked(s, r, t)
  {
    FreeSlotMeaning(s.pool, 0);
  }

  lemma ResumeKeepsBlocked(s: Sched, id: nat, t: Slot, r: Sched)
    requires s.pool[t].state == BLOCKED && r == Resume(s, id).0
    ensures SameBlocked(s, r, t)
  {
    TaskSlotMeaning(s.pool, id, 0);
  }

  lemma DeleteKeepsBlocked(s: Sched, id: nat, t: Slot, r: Sched)
    requires Sound(s) && s.pool[t].state == BLOCKED && r == Delete(s, id).0
    ensures SameBlocked(s, r, t) || id == s.pool[t].id
  {
    TaskSlotMeaning(s.pool, id, 0);
    if TaskSlot(s.pool, id, 0).To? {
      OthersStayBlocked(s, TaskSlot(s.pool, id, 0).slot, DELETED, t);
    }
  }

  lemma SuspendKeepsBlocked(s: Sched, id: nat, t: Slot, r: Sched)
    requires Sound(s) && id != 0 && s.pool[t].state == BLOCKED && r == Suspend(s, id).0
    ensures SameBlocked(s, r, t) || id == s.pool[t].id
  {
    TaskSlotMeaning(s.pool, id, 0);
    if TaskSlot(s.pool, id, 0).To? {
      OthersStayBlocked(s, TaskSlot(s.pool, id, 0).slot, SUSPENDED, t);
    }
  }

  /** The same through any number of calls: a task that has blocked itself is never woken. */
  lemma {:induction false} BlockedForever(s: Sched, calls: seq<Call>, t: Slot)
    requires Sound(s) && LegalFrom(s, calls) && s.pool[t].state == BLOCKED
    requires CallDelete(s.pool[t].id) !in calls && CallSuspend(s.pool[t].id) !in calls
    ensures SameBlocked(s, Run(s, calls), t)
    decreases |calls|
  {
    if calls != [] {
      assert calls[0] in calls;
      LegalRest(s, calls);
      BlockedStays(s, calls[0], t);
      BlockedForever(Step(s, calls[0]), calls[1..], t);
    }
  }

  /** In particular one that has called task_delay, whatever number of ticks it asked for. */
  lemma {:induction false} DelayedForever(s: Sched, ticks: nat, calls: seq<Call>, t: Slot)
    requires Sound(s) && s.currentTask == To(t) && ticks > 0 && LegalFrom(Delay(s, ticks), calls)
    requires CallDelete(s.pool[t].id) !in calls && CallSuspend(s.pool[t].id) !in calls
    ensures SameBlocked(s, Run(Delay(s, ticks), calls), t)
  {
    var w := (s.tick + ticks) % U32;
    DelayInv(s, ticks);
    DelayKeeps(s, ticks);
    BlockedInv(s, t, w);
    DelayIs(s, ticks, Blocked(s, t, w));
    YieldKeepsBlocked(Blocked(s, t, w), t);
    BlockedForever(Delay(s, ticks), calls, t);
  }

  lemma ScheduleKeepsBlocked(s: Sched, t: Slot)
    requires Inv(s) && s.pool[t].state == BLOCKED
    ensures SameBlocked(s, Schedule(s), t)
  {
    HighestIsReady(s);
    RequeueInv(s);
  }

  lemma YieldKeepsBlocked(s: Sched, t: Slot)
    requires Inv(s) && s.pool[t].state == BLOCKED
    ensures SameBlocked(s, Yield(s), t)
  {
    ReleaseInv(s);
    ScheduleKeepsBlocked(Release(s), t);
  }

  lemma OthersStayBlocked(s: Sched, u: Slot, state: TaskState, t: Slot)
    requires Sound(s) && s.pool[t].state == BLOCKED && state in {DELETED, SUSPENDED} && (Used(s, u) || state == DELETED)
    ensures u != t ==> SameBlocked(s, YieldIfCurrent(Retire(s, u, state), u), t)
  {
    RetireInv(s, u, state);
    if u != t {
      YieldKeepsBlocked(Retire(s, u, state), t);
    }
  }

  lemma TickKeepsBlocked(s: Sched, t: Slot)
    requires Sound(s) && s.pool[t].state == BLOCKED
    ensures SameBlocked(s, Tick(s), t)
  {
    ClockInv(s, (s.tick + 1) % U32);
    YieldKeepsBlocked(s.(tick := (s.tick + 1) % U32), t);
  }

  lemma StartKeepsBlocked(s: Sched, t: Slot)
    requires Inv(s) && s.pool[t].state == BLOCKED
    ensures SameBlocked(s, Start(s), t)
  {
    var s1 := s.(running := true);
    forall p: Level ensures LevelOk(s1, p) {
      assert LevelOk(s, p);
    }
    ScheduleKeepsBlocked(s1, t);
  }

  lemma DelayKeepsBlocked(s: Sched, ticks: nat, t: Slot)
    requires Sound(s) && s.pool[t].state == BLOCKED
    ensures SameBlocked(s, Delay(s, ticks), t)
  {
    if s.currentTask.To? && ticks > 0 {
      var u, w := s.currentTask.slot, (s.tick + ticks) % U32;
      BlockedInv(s, u, w);
      YieldKeepsBlocked(Blocked(s, u, w), t);
    }
  }
}
