/** What every run of the scheduler keeps. */
module SchedInvariant {
  import opened SchedModel

  predicate Used(s: Sched, t: Slot) {
    s.pool[t].id != 0
  }

  predicate Ready(s: Sched, t: Slot) {
    s.pool[t].state == READY && Used(s, t)
  }

  /** A ready list holds ready tasks of its own level, each once. */
  ghost predicate LevelOk(s: Sched, p: Level) {
    && Distinct(s.ready[p])
    && forall t: Slot {:trigger t in s.ready[p]} :: t in s.ready[p] ==> Ready(s, t) && s.pool[t].priority == p
  }

  /** Every ready task is on the list of its level; with LevelOk, on that one only. */
  ghost predicate Complete(s: Sched) {
    forall t: Slot :: Ready(s, t) ==> t in s.ready[s.pool[t].priority]
  }

  /** Only the current task runs. */
  ghost predicate OneRuns(s: Sched) {
    && s.currentTcb == s.currentTask
    && (s.currentTcb.To? ==> Used(s, s.currentTcb.slot) && s.running)
    && forall t: Slot :: s.pool[t].state == RUNNING ==> s.currentTcb == To(t)
  }

  /** A slot that no task was created in; task_delete(0) may have marked it. */
  predicate Blank(task: Task) {
    task == UNUSED || task == UNUSED.(state := DELETED)
  }

  /** Identifiers are issued once. */
  ghost predicate IdsOk(s: Sched) {
    && 0 < s.nextId < U32
    && (forall t: Slot :: s.pool[t].id < s.nextId && (s.pool[t].id == 0 ==> Blank(s.pool[t])))
    && forall t: Slot, u: Slot :: t != u && Used(s, t) ==> s.pool[t].id != s.pool[u].id
  }

  ghost predicate DelayedOk(s: Sched) {
    && Distinct(s.delayed)
    && forall t: Slot :: t in s.delayed ==> s.pool[t].state == BLOCKED && Used(s, t)
  }

  /** All lists are in order. */
  ghost predicate ListsOk(s: Sched) {
    && (forall p: Level :: LevelOk(s, p))
    && Complete(s)
    && OneRuns(s)
    && DelayedOk(s)
  }

  ghost predicate Inv(s: Sched) {
    ListsOk(s) && IdsOk(s)
  }

  // ---------------------------------------------------------------------------------------------
  // The building blocks
  // ---------------------------------------------------------------------------------------------

  lemma InitialInv()
    ensures Inv(Initial())
  {
  }

  /** Readying a used task that is on no list. */
  lemma AddInv(s: Sched, t: Slot)
    requires Inv(s) && Used(s, t) && s.pool[t].state != READY && t !in s.delayed
    ensures Inv(AddTask(s, t))
  {
    var r, q := AddTask(s, t), s.pool[t].priority;
    forall p: Level ensures LevelOk(r, p) {
      assert LevelOk(s, p);
      assert t !in s.ready[p];
    }
    assert forall x :: x in s.ready[q] ==> x in r.ready[q];
  }

  /** Taking a task out of circulation, whether or not it was on a list. */
  lemma RetireInv(s: Sched, t: Slot, st: TaskState)
    requires Inv(s) && st in {BLOCKED, SUSPENDED, DELETED} && (t in s.delayed ==> st == BLOCKED)
    requires Used(s, t) || st == DELETED
    ensures Inv(Retire(s, t, st))
  {
    var r, q := Retire(s, t, st), s.pool[t].priority;
    assert LevelOk(s, q);
    WithoutMeaning(s.ready[q], t);
    forall p: Level ensures LevelOk(r, p) {
      assert LevelOk(s, p);
    }
  }

  lemma RequeueInv(s: Sched)
    requires Inv(s)
    ensures Inv(Requeue(s))
    ensures Requeue(s).currentTcb == s.currentTcb && Requeue(s).running == s.running
    ensures Requeue(s).pool == s.pool
    ensures forall p: Level :: forall x :: x in Requeue(s).ready[p] <==> x in s.ready[p]
  {
    if CurrentIs(s, READY) {
      var t := s.currentTcb.slot;
      var r, q := Requeue(s), s.pool[t].priority;
      assert LevelOk(s, q);
      WithoutMeaning(s.ready[q], t);
      assert r.pool == s.pool;
      assert r.ready == s.ready[q := Without(s.ready[q], t) + [t]];
      assert Distinct(r.ready[q]);
      forall p: Level ensures LevelOk(r, p) {
        assert LevelOk(s, p);
      }
    }
  }

  lemma DispatchInv(s: Sched, t: Slot)
    requires Inv(s) && s.running && t in s.ready[s.pool[t].priority] && !CurrentIs(s, RUNNING)
    ensures Inv(Dispatch(s, t))
  {
    var r, q := Dispatch(s, t), s.pool[t].priority;
    assert LevelOk(s, q);
    WithoutMeaning(s.ready[q], t);
    forall p: Level ensures LevelOk(r, p) {
      assert LevelOk(s, p);
    }
  }

  lemma {:induction false} HighestMeaning(ready: Levels, p: nat)
    requires p <= NUM_PRIORITY_LEVELS
    ensures HighestFrom(ready, p) == Null <==> forall l :: p <= l < NUM_PRIORITY_LEVELS ==> ready[l] == []
    ensures HighestFrom(ready, p).To? ==>
              exists l :: p <= l < NUM_PRIORITY_LEVELS && ready[l] != [] && HighestFrom(ready, p) == To(ready[l][0])
                          && forall k :: p <= k < l ==> ready[k] == []
    decreases NUM_PRIORITY_LEVELS - p
  {
    if p < NUM_PRIORITY_LEVELS && ready[p] == [] {
      HighestMeaning(ready, p + 1);
    }
  }

  /** The chosen task heads its list and no list above it has any task. */
  lemma HighestIsReady(s: Sched)
    requires Inv(s)
    ensures Highest(s) == Null <==> forall t: Slot :: !Ready(s, t)
    ensures Highest(s).To? ==>
              var t := Highest(s).slot;
              && Ready(s, t)
              && s.ready[s.pool[t].priority] != [] && t == s.ready[s.pool[t].priority][0]
              && (forall k :: 0 <= k < s.pool[t].priority ==> s.ready[k] == [])
              && (forall u: Slot :: Ready(s, u) ==> s.pool[t].priority <= s.pool[u].priority)
  {
    HighestMeaning(s.ready, 0);
    if Highest(s).To? {
      var l :| 0 <= l < NUM_PRIORITY_LEVELS && s.ready[l] != [] && Highest(s) == To(s.ready[l][0])
               && forall k :: 0 <= k < l ==> s.ready[k] == [];
      assert LevelOk(s, l) && s.ready[l][0] in s.ready[l];
    }
  }

  lemma ScheduleInv(s: Sched)
    requires Inv(s) && s.running
    requires !CurrentIs(s, RUNNING) || Highest(s) == Null
    ensures Inv(Schedule(s)) && Schedule(s).running
  {
    var next := Highest(s);
    HighestIsReady(s);
    if next != Null && next != s.currentTcb {
      RequeueInv(s);
      DispatchInv(Requeue(s), next.slot);
    }
  }

  lemma ReleaseInv(s: Sched)
    requires Inv(s)
    ensures Inv(Release(s)) && !CurrentIs(Release(s), RUNNING)
    ensures Release(s).running == s.running && Release(s).currentTcb == s.currentTcb
  {
    if CurrentIs(s, RUNNING) {
      var t := s.currentTcb.slot;
      AddInv(s, t);
      assert Release(s) == AddTask(s, t);
    }
  }

  lemma YieldInv(s: Sched)
    requires Inv(s)
    ensures Inv(Yield(s)) && Yield(s).running == s.running
  {
    if s.running {
      ReleaseInv(s);
      ScheduleInv(Release(s));
    }
  }

  lemma StartFlagInv(s: Sched)
    requires Inv(s)
    ensures Inv(s.(running := true))
  {
    forall p: Level ensures LevelOk(s.(running := true), p) {
      assert LevelOk(s, p);
    }
  }

  /** scheduler_start keeps the invariant except when a running task would be left behind: a second
      call while a task is running and another one is ready makes two tasks RUNNING. */
  lemma StartInv(s: Sched)
    requires Inv(s)
    ensures Inv(Start(s)) <==> !CurrentIs(s, RUNNING) || Highest(s) == Null
  {
    var s1 := s.(running := true);
    StartFlagInv(s);
    if !CurrentIs(s, RUNNING) || Highest(s) == Null {
      ScheduleInv(s1);
    } else {
      HighestIsReady(s);
      var t, c := Highest(s).slot, s.currentTcb.slot;
      assert Start(s).pool[c].state == RUNNING && Start(s).pool[t].state == RUNNING && t != c;
    }
  }

  lemma {:induction false} ProcessDelayedInv(s: Sched)
    requires Inv(s)
    ensures Inv(ProcessDelayed(s)) && ProcessDelayed(s).running == s.running
    ensures ProcessDelayed(s).currentTcb == s.currentTcb && ProcessDelayed(s).tick == s.tick
    decreases |s.delayed|
  {
    if s.delayed != [] && s.pool[s.delayed[0]].wakeTime <= s.tick {
      var t := s.delayed[0];
      var s1 := s.(delayed := s.delayed[1..]);
      assert t in s.delayed;
      assert forall x :: x in s1.delayed ==> x in s.delayed;
      assert forall p: Level :: LevelOk(s, p) ==> LevelOk(s1, p);
      AddInv(s1, t);
      ProcessDelayedInv(AddTask(s1, t));
    }
  }

  lemma ClockInv(s: Sched, tick: nat)
    requires Inv(s)
    ensures Inv(s.(tick := tick))
  {
    var s0 := s.(tick := tick);
    forall p: Level ensures LevelOk(s0, p) {
      assert LevelOk(s, p);
    }
  }

  lemma AwakenInv(s: Sched, tick: nat)
    requires Inv(s)
    ensures var r := Awaken(s, tick);
            Inv(r) && r.running == s.running && r.currentTcb == s.currentTcb && r.tick == tick
  {
    ClockInv(s, tick);
    ProcessDelayedInv(s.(tick := tick));
  }

  lemma PreemptInv(s: Sched)
    requires Inv(s)
    ensures Inv(Preempt(s)) && Preempt(s).running == s.running
  {
    YieldInv(s);
  }

  lemma TickInv(s: Sched)
    requires Inv(s)
    ensures Inv(Tick(s)) && Tick(s).running == s.running
  {
    var a := Awaken(s, (s.tick + 1) % U32);
    AwakenInv(s, (s.tick + 1) % U32);
    PreemptInv(a);
    TickIs(s, a);
  }

  // ---------------------------------------------------------------------------------------------
  // task.c
  // ---------------------------------------------------------------------------------------------

  lemma {:induction false} FreeSlotMeaning(pool: Pool, i: nat)
    requires i <= MAX_TASKS
    ensures FreeSlot(pool, i) == Null <==>
            forall t :: i <= t < MAX_TASKS ==> pool[t].state != DELETED && pool[t].id != 0
    ensures FreeSlot(pool, i).To? ==>
              pool[FreeSlot(pool, i).slot].state == DELETED || pool[FreeSlot(pool, i).slot].id == 0
    decreases MAX_TASKS - i
  {
    if i < MAX_TASKS {
      FreeSlotMeaning(pool, i + 1);
    }
  }

  lemma {:induction false} TaskSlotMeaning(pool: Pool, id: nat, i: nat)
    requires i <= MAX_TASKS
    ensures TaskSlot(pool, id, i) == Null <==>
            forall t :: i <= t < MAX_TASKS ==> pool[t].id != id || pool[t].state == DELETED
    ensures TaskSlot(pool, id, i).To? ==>
              pool[TaskSlot(pool, id, i).slot].id == id && pool[TaskSlot(pool, id, i).slot].state != DELETED
    decreases MAX_TASKS - i
  {
    if i < MAX_TASKS {
      TaskSlotMeaning(pool, id, i + 1);
    }
  }

  /** task_create issues a new identifier; that ends well exactly if the 32-bit counter has not run
      out, or no task is created. */
  lemma CreateInv(s: Sched, priority: nat)
    requires Inv(s)
    ensures Inv(Create(s, priority).0) <==> Create(s, priority).1 != OK || s.nextId + 1 < U32
  {
    FreeSlotMeaning(s.pool, 0);
    if priority < NUM_PRIORITY_LEVELS && FreeSlot(s.pool, 0).To? {
      AddNewInv(s, FreeSlot(s.pool, 0).slot, priority);
    }
  }

  lemma AddNewInv(s: Sched, t: Slot, priority: Level)
    requires Inv(s) && (s.pool[t].state == DELETED || s.pool[t].id == 0)
    ensures Inv(AddTask(NewTask(s, t, priority), t)) <==> s.nextId + 1 < U32
  {
    if s.nextId + 1 < U32 {
      // scheduler_add_task readies the task, whatever state it was given before.
      var s1 := NewTask(s, t, priority);
      NewTaskInv(s, t, priority);
      AddInv(SetState(s1, t, SUSPENDED), t);
      AddTwice(s1, t);
    } else {
      assert !IdsOk(AddTask(NewTask(s, t, priority), t));
    }
  }

  lemma AddTwice(s: Sched, t: Slot)
    ensures AddTask(SetState(s, t, SUSPENDED), t) == AddTask(s, t)
  {
    assert s.pool[t := s.pool[t].(state := SUSPENDED)][t := s.pool[t].(state := READY)]
        == s.pool[t := s.pool[t].(state := READY)];
  }

  lemma NewTaskInv(s: Sched, t: Slot, priority: Level)
    requires Inv(s) && s.nextId + 1 < U32 && (s.pool[t].state == DELETED || s.pool[t].id == 0)
    ensures Inv(SetState(NewTask(s, t, priority), t, SUSPENDED))
  {
    var s1 := SetState(NewTask(s, t, priority), t, SUSPENDED);
    forall p: Level ensures t !in s.ready[p] && LevelOk(s1, p) {
      assert LevelOk(s, p);
    }
  }

  lemma YieldIfCurrentInv(s: Sched, t: Slot)
    requires Inv(s)
    ensures Inv(YieldIfCurrent(s, t))
  {
    YieldInv(s);
  }

  /** The identifier is that of a task on the delayed list. */
  predicate Listed(s: Sched, id: nat) {
    TaskSlot(s.pool, id, 0).To? && TaskSlot(s.pool, id, 0).slot in s.delayed
  }

  lemma DeleteInv(s: Sched, id: nat)
    requires Inv(s) && !Listed(s, id)
    ensures Inv(Delete(s, id).0)
  {
    TaskSlotMeaning(s.pool, id, 0);
    if TaskSlot(s.pool, id, 0).To? {
      var t := TaskSlot(s.pool, id, 0).slot;
      RetireInv(s, t, DELETED);
      YieldIfCurrentInv(Retire(s, t, DELETED), t);
    }
  }

  lemma ResumeInv(s: Sched, id: nat)
    requires Inv(s)
    ensures Inv(Resume(s, id).0)
  {
    TaskSlotMeaning(s.pool, id, 0);
    if TaskSlot(s.pool, id, 0).To? && s.pool[TaskSlot(s.pool, id, 0).slot].state == SUSPENDED {
      AddInv(s, TaskSlot(s.pool, id, 0).slot);
    }
  }

  /** Identifier 0 is no task's, but it is what unused slots carry: task_suspend(0) takes such a
      slot for a task, so the call is harmless exactly if it finds none. What the next call can
      make of it is SchedTheorems.UnusedSlotRuns. */
  lemma {:induction false} SuspendInv(s: Sched, id: nat)
    requires Inv(s) && !Listed(s, id)
    ensures Inv(Suspend(s, id).0) <==> id != 0 || TaskSlot(s.pool, id, 0) == Null
  {
    TaskSlotMeaning(s.pool, id, 0);
    if TaskSlot(s.pool, id, 0).To? {
      var t := TaskSlot(s.pool, id, 0).slot;
      if id != 0 {
        RetireInv(s, t, SUSPENDED);
        YieldIfCurrentInv(Retire(s, t, SUSPENDED), t);
      } else {
        var r := Suspend(s, id).0;
        assert r == Retire(s, t, SUSPENDED);
        assert r.pool[t].id == 0 && !Blank(r.pool[t]);
        assert !IdsOk(r);
      }
    }
  }

  /** The lists stay in order even then. */
  lemma SuspendLists(s: Sched, id: nat)
    requires Inv(s) && !Listed(s, id)
    ensures ListsOk(Suspend(s, id).0)
  {
    SuspendInv(s, id);
    TaskSlotMeaning(s.pool, id, 0);
    if id == 0 && TaskSlot(s.pool, id, 0).To? {
      MarkedLists(s, TaskSlot(s.pool, id, 0).slot);
    }
  }

  lemma MarkedLists(s: Sched, t: Slot)
    requires Inv(s) && !Used(s, t) && s.pool[t].state != DELETED
    ensures Retire(s, t, SUSPENDED) == SetState(s, t, SUSPENDED) && ListsOk(SetState(s, t, SUSPENDED))
  {
    assert LevelOk(s, 0);
    assert t !in s.ready[0];
    WithoutMeaning(s.ready[0], t);
    assert s.ready[0 := s.ready[0]] == s.ready;
    var s1 := SetState(s, t, SUSPENDED);
    forall p: Level ensures LevelOk(s1, p) {
      assert LevelOk(s, p);
    }
  }

  lemma WakeTimeInv(s: Sched, t: Slot, wakeTime: nat)
    requires Inv(s) && Used(s, t)
    ensures Inv(s.(pool := s.pool[t := s.pool[t].(wakeTime := wakeTime)]))
  {
    var s1 := s.(pool := s.pool[t := s.pool[t].(wakeTime := wakeTime)]);
    forall p: Level ensures LevelOk(s1, p) {
      assert LevelOk(s, p);
    }
  }

  lemma BlockedInv(s: Sched, t: Slot, wakeTime: nat)
    requires Inv(s) && Used(s, t)
    ensures Inv(Blocked(s, t, wakeTime))
  {
    WakeTimeInv(s, t, wakeTime);
    RetireInv(s.(pool := s.pool[t := s.pool[t].(wakeTime := wakeTime)]), t, BLOCKED);
  }

  lemma DelayInv(s: Sched, ticks: nat)
    requires Inv(s)
    ensures Inv(Delay(s, ticks))
  {
    if s.currentTask.To? && ticks > 0 {
      var b := Blocked(s, s.currentTask.slot, (s.tick + ticks) % U32);
      BlockedInv(s, s.currentTask.slot, (s.tick + ticks) % U32);
      YieldInv(b);
      DelayIs(s, ticks, b);
    }
  }

  // ---------------------------------------------------------------------------------------------
  // Every run
  // ---------------------------------------------------------------------------------------------

  datatype Call =
    | CallCreate(priority: nat)
    | CallDelete(id: nat)
    | CallSuspend(id: nat)
    | CallResume(id: nat)
    | CallDelay(ticks: nat)
    | CallYield
    | CallTick
    | CallStart

  function Step(s: Sched, c: Call): Sched {
    match c
    case CallCreate(priority) => Create(s, priority).0
    case CallDelete(id) => Delete(s, id).0
    case CallSuspend(id) => Suspend(s, id).0
    case CallResume(id) => Resume(s, id).0
    case CallDelay(ticks) => Delay(s, ticks)
    case CallYield => Yield(s)
    case CallTick => Tick(s)
    case CallStart => Start(s)
  }

  function Run(s: Sched, calls: seq<Call>): Sched
    decreases |calls|
  {
    if calls == [] then s else Run(Step(s, calls[0]), calls[1..])
  }

  /** Without these the invariant may break: identifiers left, a single start, and no call that
      deletes or suspends an unused slot or a task on the delayed list. */
  predicate Allowed(s: Sched, c: Call) {
    match c
    case CallCreate(_) => s.nextId + 1 < U32
    case CallDelete(id) => !Listed(s, id)
    case CallSuspend(id) => !Listed(s, id) && id != 0
    case CallStart => !s.running
    case _ => true
  }

  lemma StepInv(s: Sched, c: Call)
    requires Inv(s) && Allowed(s, c)
    ensures Inv(Step(s, c))
  {
    match c
    case CallCreate(priority) => CreateInv(s, priority);
    case CallDelete(id) => DeleteInv(s, id);
    case CallSuspend(id) => SuspendInv(s, id);
    case CallResume(id) => ResumeInv(s, id);
    case CallDelay(ticks) => DelayInv(s, ticks);
    case CallYield => YieldInv(s);
    case CallTick => TickInv(s);
    case CallStart => StartInv(s);
  }

  // ---------------------------------------------------------------------------------------------
  // What calls leave alone
  // ---------------------------------------------------------------------------------------------

  predicate Keeps(s: Sched, r: Sched) {
    r.nextId == s.nextId && r.running == s.running && r.delayed == s.delayed && r.tick == s.tick
  }

  lemma YieldKeeps(s: Sched)
    ensures Keeps(s, Yield(s)) && Keeps(s, Schedule(s))
  {
  }

  lemma RetireKeeps(s: Sched, t: Slot, st: TaskState)
    ensures Keeps(s, YieldIfCurrent(Retire(s, t, st), t))
  {
    YieldKeeps(Retire(s, t, st));
  }

  lemma DelayKeeps(s: Sched, ticks: nat)
    ensures Keeps(s, Delay(s, ticks))
  {
    if s.currentTask.To? && ticks > 0 {
      var b := Blocked(s, s.currentTask.slot, (s.tick + ticks) % U32);
      YieldKeeps(b);
      DelayIs(s, ticks, b);
    }
  }

  /** Only task_create moves the identifier counter, only scheduler_start sets the flag, only the
      tick moves the clock and takes tasks off the delayed list, and no call puts one on it:
      add_to_delayed_list has no caller. */
  lemma Untouched(s: Sched, c: Call)
    ensures match c
            case CallCreate(_) =>
              || Step(s, c) == s
              || (Step(s, c).nextId == (s.nextId + 1) % U32 && Keeps(s, Step(s, c).(nextId := s.nextId)))
            case CallStart => Keeps(s.(running := true), Step(s, c))
            case CallTick => TickKeeps(s, Step(s, c))
            case _ => Keeps(s, Step(s, c))
  {
    match c
    case CallCreate(_) =>
    case CallDelete(id) =>
      if TaskSlot(s.pool, id, 0).To? {
        RetireKeeps(s, TaskSlot(s.pool, id, 0).slot, DELETED);
      }
    case CallSuspend(id) =>
      if TaskSlot(s.pool, id, 0).To? {
        RetireKeeps(s, TaskSlot(s.pool, id, 0).slot, SUSPENDED);
      }
    case CallResume(_) =>
    case CallDelay(ticks) => DelayKeeps(s, ticks);
    case CallYield => YieldKeeps(s);
    case CallTick => TickKeepsFields(s);
    case CallStart => YieldKeeps(s.(running := true));
  }

  ghost predicate TickKeeps(s: Sched, r: Sched) {
    && r.nextId == s.nextId && r.running == s.running && r.tick == (s.tick + 1) % U32
    && IsTail(r.delayed, s.delayed)
  }

  predicate IsTail(r: seq<Slot>, q: seq<Slot>) {
    |r| <= |q| && r == q[|q| - |r|..]
  }

  lemma TailOfRest(r: seq<Slot>, q: seq<Slot>)
    requires q != [] && IsTail(r, q[1..])
    ensures IsTail(r, q)
  {
  }

  lemma TickKeepsFields(s: Sched)
    ensures TickKeeps(s, Tick(s))
  {
    var a := Awaken(s, (s.tick + 1) % U32);
    ProcessDelayedKeeps(s.(tick := (s.tick + 1) % U32));
    PreemptKeepsFields(a);
    TickIs(s, a);
  }

  lemma PreemptKeepsFields(s: Sched)
    ensures Keeps(s, Preempt(s))
  {
    YieldKeeps(s);
  }

  lemma {:induction false} ProcessDelayedKeeps(s: Sched)
    ensures var r := ProcessDelayed(s);
            && r.nextId == s.nextId && r.running == s.running && r.tick == s.tick
            && IsTail(r.delayed, s.delayed)
    decreases |s.delayed|
  {
    if s.delayed != [] && s.pool[s.delayed[0]].wakeTime <= s.tick {
      var s1 := AddTask(s.(delayed := s.delayed[1..]), s.delayed[0]);
      ProcessDelayedKeeps(s1);
      TailOfRest(ProcessDelayed(s1).delayed, s.delayed);
    }
  }

  // ---------------------------------------------------------------------------------------------
  // From the initial state
  // ---------------------------------------------------------------------------------------------

  /** What holds between two calls. */
  ghost predicate Sound(s: Sched) {
    Inv(s) && s.delayed == []
  }

  /** How many creations are among the calls. */
  function Creations(calls: seq<Call>): nat {
    if calls == [] then 0 else (if calls[0].CallCreate? then 1 else 0) + Creations(calls[1..])
  }

  /** At most one start, no task_suspend(0), and fewer creations than there are identifiers. */
  ghost predicate Legal(calls: seq<Call>) {
    LegalFrom(Initial(), calls)
  }

  /** The same for calls to come. */
  ghost predicate LegalFrom(s: Sched, calls: seq<Call>) {
    && s.nextId + Creations(calls) < U32
    && CallSuspend(0) !in calls
    && (forall i, j :: 0 <= i < j < |calls| && calls[i] == CallStart ==> calls[j] != CallStart)
    && (s.running ==> CallStart !in calls)
  }

  lemma FieldsAfter(s: Sched, c: Call)
    requires s.delayed == [] && (c.CallCreate? ==> s.nextId + 1 < U32)
    ensures Step(s, c).delayed == [] && Step(s, c).nextId <= s.nextId + if c.CallCreate? then 1 else 0
    ensures Step(s, c).running <==> s.running || c == CallStart
  {
    Untouched(s, c);
  }

  lemma LegalRest(s: Sched, calls: seq<Call>)
    requires Sound(s) && calls != [] && LegalFrom(s, calls)
    ensures Sound(Step(s, calls[0])) && LegalFrom(Step(s, calls[0]), calls[1..])
    ensures Step(s, calls[0]).running <==> s.running || calls[0] == CallStart
  {
    var c, rest := calls[0], calls[1..];
    assert c in calls;
    StepInv(s, c);
    FieldsAfter(s, c);
    assert forall i :: 0 <= i < |rest| ==> rest[i] == calls[i + 1];
  }

  lemma {:induction false} RunIsSound(s: Sched, calls: seq<Call>)
    requires Sound(s) && LegalFrom(s, calls)
    ensures Sound(Run(s, calls))
    ensures Run(s, calls).running <==> s.running || CallStart in calls
    decreases |calls|
  {
    if calls != [] {
      LegalRest(s, calls);
      RunIsSound(Step(s, calls[0]), calls[1..]);
      assert calls == [calls[0]] + calls[1..];
    }
  }

  /** Every state that the kernel reaches from its initialization. */
  lemma {:induction false} ReachableIsSound(calls: seq<Call>)
    requires Legal(calls)
    ensures Sound(Run(Initial(), calls))
  {
    InitialInv();
    RunIsSound(Initial(), calls);
  }
}
