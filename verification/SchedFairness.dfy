/**
  Round robin among equal priorities: whom a yield lets run, and how a task that yields alone keeps
  the processor from then on.
*/
module SchedFairness {
  import opened SchedInvariant
  import opened SchedModel
  import opened SchedTheorems

  // ---------------------------------------------------------------------------------------------
  // A current task at the head of its own ready list
  // ---------------------------------------------------------------------------------------------

  /** t heads the list of its level and no level above has any task. */
  predicate Leads(s: Sched, t: Slot) {
    var p := s.pool[t].priority;
    s.ready[p] != [] && s.ready[p][0] == t && forall k :: 0 <= k < p ==> s.ready[k] == []
  }

  lemma LeadsIsHighest(s: Sched, t: Slot)
    requires Inv(s)
    ensures Leads(s, t) <==> Highest(s) == To(t)
  {
    HighestIsReady(s);
    if Leads(s, t) {
      HighestAt(s.ready, s.pool[t].priority, 0);
    }
  }

  /** The current task is READY and the first that the scheduler finds. */
  ghost predicate Stuck(s: Sched) {
    && Inv(s) && s.running
    && CurrentIs(s, READY) && Leads(s, s.currentTcb.slot)
  }

  lemma StuckYield(s: Sched)
    requires Stuck(s)
    ensures Yield(s) == s
  {
    LeadsIsHighest(s, s.currentTcb.slot);
  }

  lemma {:induction false} StuckYields(s: Sched, n: nat)
    requires Stuck(s)
    ensures Yields(s, n) == s
  {
    if n > 0 {
      StuckYields(s, n - 1);
      StuckYield(s);
    }
  }

  lemma StuckTick(s: Sched)
    requires Stuck(s) && s.delayed == []
    ensures Tick(s) == s.(tick := (s.tick + 1) % U32)
  {
    var a := s.(tick := (s.tick + 1) % U32);
    LeadsIsHighest(s, s.currentTcb.slot);
    assert Highest(a) == Highest(s);
    assert !Preempts(a);
    TickIs(s, a);
  }

  // ---------------------------------------------------------------------------------------------
  // How it comes about
  // ---------------------------------------------------------------------------------------------

  /** No ready task has the priority of the running one or a better one. */
  predicate Alone(s: Sched)
    requires s.currentTcb.To?
  {
    forall k :: 0 <= k <= s.pool[s.currentTcb.slot].priority ==> s.ready[k] == []
  }

  /** A running task that yields stays current, READY and in front exactly if it is alone. */
  lemma YieldSticks(s: Sched)
    requires Inv(s) && s.running && CurrentIs(s, RUNNING)
    ensures Stuck(Yield(s)) <==> Alone(s)
  {
    var c := s.currentTcb.slot;
    var r := Release(s);
    ReleaseInv(s);
    YieldInv(s);
    ReleasedList(s);
    LeadsIsHighest(r, c);
    if Alone(s) {
      assert s.ready[s.pool[c].priority] + [c] == [c];
      assert Leads(r, c);
      assert Yield(s) == r;
    } else {
      NotLeading(s, r);
      HighestIsReady(r);
      assert Ready(r, c);
      ScheduleRuns(r);
    }
  }

  lemma ReleasedList(s: Sched)
    requires CurrentIs(s, RUNNING)
    ensures var p := s.pool[s.currentTcb.slot].priority;
            && Release(s).ready == s.ready[p := s.ready[p] + [s.currentTcb.slot]]
            && Release(s).pool[s.currentTcb.slot].priority == p
  {
  }

  lemma NotLeading(s: Sched, r: Sched)
    requires Inv(s) && CurrentIs(s, RUNNING) && !Alone(s)
    requires var p := s.pool[s.currentTcb.slot].priority; r.ready == s.ready[p := s.ready[p] + [s.currentTcb.slot]]
    requires r.pool[s.currentTcb.slot].priority == s.pool[s.currentTcb.slot].priority
    ensures !Leads(r, s.currentTcb.slot)
  {
    var c := s.currentTcb.slot;
    var p := s.pool[c].priority;
    assert LevelOk(s, p);
    var k: int :| 0 <= k <= p && s.ready[k] != [];
    if k == p {
      assert s.ready[p][0] in s.ready[p];
      assert r.ready[p][0] == s.ready[p][0];
    } else {
      assert r.ready[k] != [];
    }
  }

  /** Switching to another task makes it RUNNING. */
  lemma ScheduleRuns(s: Sched)
    requires Highest(s).To? && Highest(s) != s.currentTcb
    ensures CurrentIs(Schedule(s), RUNNING) && Schedule(s).currentTcb == Highest(s)
  {
  }

  lemma AfterOneCreate() returns (s: Sched)
    ensures s == Step(Initial(), CallCreate(1))
    ensures s.ready[1] == [0] && (forall p: Level :: p != 1 ==> s.ready[p] == [])
    ensures s.currentTcb == Null && s.delayed == []
    ensures s.pool[0] == Task(READY, 1, 1, 0) && s.pool[1] == UNUSED && s.nextId == 2
  {
    s := Step(Initial(), CallCreate(1));
    assert FreeSlot(Initial().pool, 0) == To(0);
  }

  lemma AfterStart() returns (s1: Sched, s: Sched)
    ensures s1 == Step(Initial(), CallCreate(1)) && s == Step(s1, CallStart)
    ensures (forall p: Level :: s.ready[p] == []) && s.currentTcb == To(0) == s.currentTask && s.running
    ensures s.pool[0] == Task(RUNNING, 1, 1, 0) && s.pool[1] == UNUSED && s.nextId == 2 && s.delayed == []
    ensures Inv(s)
  {
    s1 := AfterOneCreate();
    InitialInv();
    StepInv(Initial(), CallCreate(1));
    StepInv(s1, CallStart);
    assert HighestFrom(s1.ready, 1) == To(0);
    assert Highest(s1) == To(0);
    s := Start(s1);
  }

  /** A task that is created, started and deletes itself, and a task created after that. */
  lemma DeletedAlone() returns (s: Sched)
    ensures var calls := [CallCreate(1), CallStart, CallDelete(1), CallCreate(1)];
            Legal(calls) && s == Run(Initial(), calls)
    ensures Stuck(s) && s.currentTcb == To(0)
  {
    var s1, s2 := AfterStart();
    assert TaskSlot(s2.pool, 1, 0) == To(0);
    var d := Retire(s2, 0, DELETED);
    assert d.ready == s2.ready;
    assert Highest(d) == Null by {
      HighestMeaning(d.ready, 0);
    }
    var s3 := Step(s2, CallDelete(1));
    assert s3 == d;
    assert FreeSlot(s3.pool, 0) == To(0);
    s := Step(s3, CallCreate(1));
    RunOfFour(Initial(), s1, s2, s3, s, CallCreate(1), CallStart, CallDelete(1), CallCreate(1));
    StartAsSecond(CallDelete(1));
    ReachableIsSound([CallCreate(1), CallStart, CallDelete(1), CallCreate(1)]);
  }

  lemma {:induction false} RunOfFour(s: Sched, s1: Sched, s2: Sched, s3: Sched, s4: Sched,
                                     a: Call, b: Call, c: Call, d: Call)
    requires s1 == Step(s, a) && s2 == Step(s1, b) && s3 == Step(s2, c) && s4 == Step(s3, d)
    ensures Run(s, [a, b, c, d]) == s4
  {
    assert [a, b, c, d][1..] == [b, c, d] && [b, c, d][1..] == [c, d] && [c, d][1..] == [d] && [d][1..] == [];
    assert Run(s4, []) == s4;
    assert Run(s3, [d]) == s4;
    assert Run(s2, [c, d]) == s4;
    assert Run(s1, [b, c, d]) == s4;
  }

  lemma {:induction false} CreationsOfFour(a: Call, b: Call, c: Call, d: Call)
    ensures Creations([a, b, c, d]) ==
            (if a.CallCreate? then 1 else 0) + (if b.CallCreate? then 1 else 0)
            + (if c.CallCreate? then 1 else 0) + if d.CallCreate? then 1 else 0
  {
    assert [a, b, c, d][1..] == [b, c, d] && [b, c, d][1..] == [c, d] && [c, d][1..] == [d] && [d][1..] == [];
    assert Creations([d]) == if d.CallCreate? then 1 else 0;
    assert Creations([c, d]) == (if c.CallCreate? then 1 else 0) + Creations([d]);
    assert Creations([b, c, d]) == (if b.CallCreate? then 1 else 0) + Creations([c, d]);
  }

  /** The slot of a current task that deleted itself with nobody ready can be given to a new task,
      which is then current without ever having been dispatched. */
  lemma ReusedSlotSticks(s: Sched, priority: Level)
    requires Inv(s) && s.running && CurrentIs(s, DELETED) && FreeSlot(s.pool, 0) == s.currentTcb
    requires s.nextId + 1 < U32
    ensures Stuck(Create(s, priority).0) <==> forall k :: 0 <= k <= priority ==> s.ready[k] == []
  {
    var t := s.currentTcb.slot;
    var r := AddTask(NewTask(s, t, priority), t);
    CreateInv(s, priority);
    assert r == Create(s, priority).0;
    assert LevelOk(s, priority) && t !in s.ready[priority];
    AddedLeads(NewTask(s, t, priority), t);
  }

  /** So can a current task that suspended itself and is resumed. */
  lemma {:induction false} ResumedSticks(s: Sched, id: nat)
    requires Inv(s) && s.running && CurrentIs(s, SUSPENDED) && TaskSlot(s.pool, id, 0) == s.currentTcb
    ensures Stuck(Resume(s, id).0) <==> Alone(s)
  {
    var t := s.currentTcb.slot;
    ResumeInv(s, id);
    assert LevelOk(s, s.pool[t].priority) && t !in s.ready[s.pool[t].priority];
    AddedLeads(s, t);
  }

  /** A task put on its ready list comes first exactly if there was none before it. */
  lemma AddedLeads(s: Sched, t: Slot)
    requires t !in s.ready[s.pool[t].priority]
    ensures Leads(AddTask(s, t), t) <==> forall k :: 0 <= k <= s.pool[t].priority ==> s.ready[k] == []
  {
    var r, p := AddTask(s, t), s.pool[t].priority;
    assert r.ready[p] == s.ready[p] + [t];
    assert forall k :: 0 <= k < p ==> r.ready[k] == s.ready[k];
    if s.ready[p] != [] {
      assert r.ready[p][0] == s.ready[p][0];
      assert s.ready[p][0] in s.ready[p];
    } else {
      assert r.ready[p] == [t];
    }
  }

  // ---------------------------------------------------------------------------------------------
  // How it goes on
  // ---------------------------------------------------------------------------------------------

  /** The call neither comes from nor names the current task and readies no task above its level. */
  predicate Harmless(s: Sched, c: Call)
    requires s.currentTcb.To?
  {
    var p := s.pool[s.currentTcb.slot].priority;
    match c
    case CallCreate(priority) => priority >= p || Create(s, priority).1 != OK
    case CallDelete(id) => TaskSlot(s.pool, id, 0) != s.currentTcb
    case CallSuspend(id) => TaskSlot(s.pool, id, 0) != s.currentTcb
    case CallResume(id) =>
      var u := TaskSlot(s.pool, id, 0);
      u.To? && s.pool[u.slot].state == SUSPENDED ==> s.pool[u.slot].priority >= p
    case CallDelay(ticks) => ticks == 0
    case _ => true
  }

  /** Whether a call leaves the current task where it is. */
  ghost predicate Stays(s: Sched, r: Sched) {
    Stuck(r) && r.currentTcb == s.currentTcb
  }

  lemma CreateStays(s: Sched, priority: nat, r: Sched)
    requires Stuck(s) && s.nextId + 1 < U32 && r == Create(s, priority).0
    ensures Stays(s, r) <==> Harmless(s, CallCreate(priority))
  {
    CreateInv(s, priority);
    FreeSlotMeaning(s.pool, 0);
    if Create(s, priority).1 == OK {
      var t := FreeSlot(s.pool, 0).slot;
      AddedBehind(NewTask(s, t, priority), t, s.currentTcb.slot);
    }
  }

  /** A task put on its ready list leaves the first task first exactly if it has no better priority. */
  lemma AddedBehind(s: Sched, t: Slot, c: Slot)
    requires Leads(s, c) && t != c
    ensures Leads(AddTask(s, t), c) <==> s.pool[t].priority >= s.pool[c].priority
  {
    var r, p := AddTask(s, t), s.pool[t].priority;
    assert r.ready[p] == s.ready[p] + [t];
  }

  lemma ResumeStays(s: Sched, id: nat, r: Sched)
    requires Stuck(s) && r == Resume(s, id).0
    ensures Stays(s, r) <==> Harmless(s, CallResume(id))
  {
    var u := TaskSlot(s.pool, id, 0);
    TaskSlotMeaning(s.pool, id, 0);
    if u.To? && s.pool[u.slot].state == SUSPENDED {
      ResumeInv(s, id);
      assert r == AddTask(s, u.slot);
      AddedStays(s, u.slot, r);
    } else {
      assert r == s;
    }
  }

  lemma AddedStays(s: Sched, t: Slot, r: Sched)
    requires Stuck(s) && Inv(r) && r == AddTask(s, t) && t != s.currentTcb.slot
    ensures Stays(s, r) <==> s.pool[t].priority >= s.pool[s.currentTcb.slot].priority
  {
    AddedBehind(s, t, s.currentTcb.slot);
  }

  lemma RetireStays(s: Sched, t: Slot, st: TaskState, r: Sched)
    requires Stuck(s) && s.delayed == [] && st in {DELETED, SUSPENDED} && (Used(s, t) || st == DELETED)
    requires r == YieldIfCurrent(Retire(s, t, st), t)
    ensures Stays(s, r) <==> To(t) != s.currentTcb
  {
    RetireInv(s, t, st);
    if To(t) == s.currentTcb {
      NotReadyAfter(Retire(s, t, st), r, t);
    } else {
      RemovedElsewhere(s, t, s.currentTcb.slot);
    }
  }

  lemma RemovedElsewhere(s: Sched, t: Slot, c: Slot)
    requires Leads(s, c) && t != c
    ensures Leads(RemoveTask(s, t), c)
  {
  }

  /** A current task that is neither running nor ready does not become ready by yielding. */
  lemma NotReadyAfter(s: Sched, r: Sched, t: Slot)
    requires Inv(s) && s.currentTcb == To(t) && s.pool[t].state !in {RUNNING, READY} && r == Yield(s)
    ensures !(CurrentIs(r, READY) && r.currentTcb == To(t))
  {
    HighestIsReady(s);
    RequeueInv(s);
  }

  lemma DelayStays(s: Sched, ticks: nat, r: Sched)
    requires Stuck(s) && r == Delay(s, ticks)
    ensures Stays(s, r) <==> ticks == 0
  {
    if ticks > 0 {
      var t := s.currentTask.slot;
      var b := Blocked(s, t, (s.tick + ticks) % U32);
      BlockedInv(s, t, (s.tick + ticks) % U32);
      DelayIs(s, ticks, b);
      NotReadyAfter(b, r, t);
    }
  }

  /** Of all calls exactly the harmless ones leave a task that is stuck in front. */
  lemma StuckStep(s: Sched, c: Call)
    requires Stuck(s) && s.delayed == [] && Allowed(s, c)
    ensures Stays(s, Step(s, c)) <==> Harmless(s, c)
  {
    match c
    case CallCreate(priority) => CreateStays(s, priority, Step(s, c));
    case CallDelete(id) =>
      TaskSlotMeaning(s.pool, id, 0);
      if TaskSlot(s.pool, id, 0).To? {
        RetireStays(s, TaskSlot(s.pool, id, 0).slot, DELETED, Step(s, c));
      }
    case CallSuspend(id) =>
      TaskSlotMeaning(s.pool, id, 0);
      if TaskSlot(s.pool, id, 0).To? {
        RetireStays(s, TaskSlot(s.pool, id, 0).slot, SUSPENDED, Step(s, c));
      }
    case CallResume(id) => ResumeStays(s, id, Step(s, c));
    case CallDelay(ticks) => DelayStays(s, ticks, Step(s, c));
    case CallYield => StuckYield(s);
    case CallTick =>
      StuckTick(s);
      ClockInv(s, (s.tick + 1) % U32);
  }

  /** The state of a task that is created, started, and yields alone, with a second task created at
      its priority. */
  lemma LoneYield() returns (s: Sched)
    ensures var calls := [CallCreate(1), CallStart, CallYield, CallCreate(1)];
            Legal(calls) && s == Run(Initial(), calls)
    ensures Stuck(s) && s.currentTcb == To(0) && s.ready[1] == [0, 1] && Ready(s, 1)
  {
    var s1, s2 := AfterStart();
    YieldSticks(s2);
    var s3 := Yield(s2);
    YieldsAlone(s2, s3);
    StuckStep(s3, CallCreate(1));
    s := Step(s3, CallCreate(1));
    SecondCreated(s3, s);
    RunOfFour(Initial(), s1, s2, s3, s, CallCreate(1), CallStart, CallYield, CallCreate(1));
    StartAsSecond(CallYield);
  }

  lemma StartAsSecond(c: Call)
    requires c != CallStart && c != CallSuspend(0) && !c.CallCreate?
    ensures Legal([CallCreate(1), CallStart, c, CallCreate(1)])
  {
    CreationsOfFour(CallCreate(1), CallStart, c, CallCreate(1));
  }

  lemma YieldsAlone(s: Sched, r: Sched)
    requires s.running && s.currentTcb == To(0) && s.pool[0] == Task(RUNNING, 1, 1, 0) && r == Yield(s)
    requires forall p: Level :: s.ready[p] == []
    ensures r == Release(s) && r.ready[1] == [0] && r.currentTcb == To(0) && r.pool[0] == Task(READY, 1, 1, 0)
    ensures forall t: Slot :: t != 0 ==> r.pool[t] == s.pool[t]
    ensures r.nextId == s.nextId && r.delayed == s.delayed && r.running
  {
    var r1 := Release(s);
    assert r1.ready[1] == [0];
    assert HighestFrom(r1.ready, 1) == To(0);
    assert Highest(r1) == To(0);
  }

  lemma SecondCreated(s: Sched, r: Sched)
    requires r == Create(s, 1).0 && s.pool[0] == Task(READY, 1, 1, 0) && s.pool[1] == UNUSED
    requires s.ready[1] == [0] && s.nextId == 2
    ensures r.ready[1] == [0, 1] && Ready(r, 1)
  {
    assert FreeSlot(s.pool, 1) == To(1);
    assert FreeSlot(s.pool, 0) == To(1);
  }

  /** Every call of the run is harmless. */
  predicate HarmlessAll(s: Sched, calls: seq<Call>)
    decreases |calls|
  {
    calls != [] ==>
      s.currentTcb.To? && Allowed(s, calls[0]) && Harmless(s, calls[0]) && HarmlessAll(Step(s, calls[0]), calls[1..])
  }

  /** Through any run of such calls, however many yields and ticks, no other task is dispatched. */
  lemma {:induction false} Starves(s: Sched, calls: seq<Call>)
    requires Stuck(s) && s.delayed == [] && HarmlessAll(s, calls)
    ensures Stays(s, Run(s, calls))
    ensures forall t: Slot :: Run(s, calls).pool[t].state != RUNNING
    decreases |calls|
  {
    if calls != [] {
      StuckStep(s, calls[0]);
      Untouched(s, calls[0]);
      Starves(Step(s, calls[0]), calls[1..]);
    }
  }

  // ---------------------------------------------------------------------------------------------
  // When round robin holds
  // ---------------------------------------------------------------------------------------------

  /** The current task can run, another one is ready at its level, and none above it. */
  ghost predicate Contended(s: Sched) {
    && Inv(s) && s.running
    && (CurrentIs(s, RUNNING) || CurrentIs(s, READY))
    && var c := s.currentTcb.slot;
       var p := s.pool[c].priority;
       && (exists t :: t in s.ready[p] && t != c)
       && forall k :: 0 <= k < p ==> s.ready[k] == []
  }

  predicate InFront(s: Sched)
    requires s.currentTcb.To?
  {
    var p := s.pool[s.currentTcb.slot].priority;
    CurrentIs(s, READY) && s.ready[p] != [] && s.ready[p][0] == s.currentTcb.slot
  }

  lemma FrontIsStuck(s: Sched)
    requires Contended(s)
    ensures InFront(s) <==> Stuck(s)
  {
  }

  /** A ready current task that is not in front lets the first one run, and all share from then on. */
  lemma RejoinsRing(s: Sched, r: Sched)
    requires Contended(s) && CurrentIs(s, READY) && !InFront(s) && r == Yield(s)
    ensures Shares(r) && r.currentTcb != s.currentTcb
    ensures forall t :: t in s.ready[s.pool[s.currentTcb.slot].priority] ==> t in Ring(r)
  {
    var c := s.currentTcb.slot;
    var p := s.pool[c].priority;
    var q := s.ready[p];
    var x := q[0];
    assert LevelOk(s, p) && x in q;
    LeadsIsHighest(s, x);
    RequeueInv(s);
    var s1 := Requeue(s);
    assert r == Dispatch(s1, x);
    assert LevelOk(s1, p);
    WithoutMeaning(s1.ready[p], x);
    assert c in q && c in s1.ready[p];
    YieldInv(s);
    OthersEmpty(s, s1, r, p, x);
  }

  lemma OthersEmpty(s: Sched, s1: Sched, r: Sched, p: Level, x: Slot)
    requires r == Dispatch(s1, x) && s1.pool[x].priority == p
    requires forall k :: 0 <= k < p ==> s.ready[k] == []
    requires forall l: Level :: forall t :: t in s1.ready[l] <==> t in s.ready[l]
    ensures forall k :: 0 <= k < p ==> r.ready[k] == []
  {
    forall k: Level | k < p ensures r.ready[k] == [] {
      SomeElement(s1.ready[k], s.ready[k]);
    }
  }

  lemma SomeElement(a: seq<Slot>, b: seq<Slot>)
    requires forall t :: t in a <==> t in b
    ensures a != [] ==> b != []
  {
    if a != [] {
      assert a[0] in a && a[0] in b;
    }
  }

  /** A yield passes the turn exactly if the current task is not in front. */
  lemma YieldSwitches(s: Sched)
    requires Contended(s)
    ensures Yield(s).currentTcb != s.currentTcb <==> !InFront(s)
  {
    FrontIsStuck(s);
    if InFront(s) {
      StuckYield(s);
    } else if CurrentIs(s, READY) {
      RejoinsRing(s, Yield(s));
    } else {
      assert Shares(s);
      OneTurn(s);
      RingIsDistinct(s);
    }
  }

  lemma RingIsDistinct(s: Sched)
    requires Shares(s)
    ensures Ring(Yield(s))[0] == Ring(s)[1] != Ring(s)[0]
  {
    OneTurn(s);
    assert LevelOk(s, RingLevel(s));
    assert Ring(s)[1] in s.ready[RingLevel(s)];
  }

  lemma {:induction false} YieldsShift(s: Sched, n: nat)
    ensures Yields(Yield(s), n) == Yields(s, n + 1)
  {
    if n > 0 {
      YieldsShift(s, n - 1);
    }
  }

  /** t is the current task after some number of yields. */
  ghost predicate GetsTurn(s: Sched, t: Slot) {
    exists n: nat :: Yields(s, n).currentTcb == To(t)
  }

  lemma SharersGetTurns(s: Sched, t: Slot)
    requires Shares(s) && t in Ring(s)
    ensures GetsTurn(s, t)
  {
    var n: nat :| n < |Ring(s)| && Ring(s)[n] == t;
    NthTurn(s, n);
  }

  lemma NextGetsTurn(s: Sched, t: Slot)
    requires GetsTurn(Yield(s), t)
    ensures GetsTurn(s, t)
  {
    var n: nat :| Yields(Yield(s), n).currentTcb == To(t);
    YieldsShift(s, n);
  }

  /** Round robin, exactly: yields let every task run that is ready at the level of the current one,
      unless that is in front, when they never let any other run. */
  lemma {:induction false} EveryoneGetsTurns(s: Sched)
    requires Contended(s)
    ensures (forall t :: t in s.ready[s.pool[s.currentTcb.slot].priority] ==> GetsTurn(s, t)) <==> !InFront(s)
    ensures InFront(s) ==> forall n: nat :: Yields(s, n) == s
  {
    var c := s.currentTcb.slot;
    var q := s.ready[s.pool[c].priority];
    FrontIsStuck(s);
    if InFront(s) {
      forall n: nat ensures Yields(s, n) == s {
        StuckYields(s, n);
      }
      var t :| t in q && t != c;
      assert !GetsTurn(s, t);
    } else {
      forall t | t in q ensures GetsTurn(s, t) {
        if CurrentIs(s, READY) {
          RejoinsRing(s, Yield(s));
          SharersGetTurns(Yield(s), t);
          NextGetsTurn(s, t);
        } else {
          assert Shares(s);
          SharersGetTurns(s, t);
        }
      }
    }
  }
}
