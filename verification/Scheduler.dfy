/**
  The kernel's scheduler and task manager (src/kernel/scheduler.c, src/kernel/task.c), statement by
  statement over the linked lists of SchedLinks.dfy, refining the state machine of SchedModel.dfy.
*/
module Scheduler {
  import opened SchedInvariant
  import opened SchedLinks
  import opened SchedModel

  class Kernel {
    const taskPool: array<Tcb>
    const readyLists: array<Ref>
    var delayedList: Ref
    var currentTcb: Ref
    var currentTask: Ref
    var systemTickCount: nat
    var schedulerRunning: bool
    var nextTaskId: nat
    ghost var ready: Levels
    ghost var delayed: seq<Slot>

    /** The lists in memory are these sequences. */
    ghost predicate Rep()
      reads this, taskPool, readyLists
    {
      && taskPool.Length == MAX_TASKS
      && readyLists.Length == NUM_PRIORITY_LEVELS
      && (forall p: Level :: ListOk(taskPool[..], readyLists[p], ready[p], p, delayed))
      && Linked(taskPool[..], delayedList, delayed) && Distinct(delayed)
    }

    ghost function Abs(): Sched
      requires taskPool.Length == MAX_TASKS
      reads this, taskPool
    {
      Sched(Tasks(taskPool[..]), ready, delayed, currentTcb, currentTask, systemTickCount, schedulerRunning, nextTaskId)
    }

    ghost predicate Valid()
      reads this, taskPool, readyLists
    {
      Rep() && Inv(Abs())
    }

    ghost predicate OnNoList(t: Slot)
      reads this
    {
      t !in delayed && forall p: Level :: t !in ready[p]
    }

    /** task_init and scheduler_init. */
    constructor ()
      ensures Valid() && Abs() == Initial()
    {
      taskPool := new Tcb[MAX_TASKS](_ => Tcb(UNUSED, Null));
      readyLists := new Ref[NUM_PRIORITY_LEVELS](_ => Null);
      delayedList, currentTcb, currentTask := Null, Null, Null;
      systemTickCount, schedulerRunning, nextTaskId := 0, false, 1;
      ready := seq(NUM_PRIORITY_LEVELS, _ => []);
      delayed := [];
      new;
      InitialInv();
      assert Tasks(taskPool[..]) == Initial().pool;
    }

    /** Blocks whose links stay put, and lists that stay as they are. */
    lemma OtherLists(pool: TcbPool, heads: seq<Ref>, lists: Levels, q: Level)
      requires taskPool.Length == MAX_TASKS && readyLists.Length == NUM_PRIORITY_LEVELS
      requires |heads| == NUM_PRIORITY_LEVELS
      requires ListOk(pool, heads[q], lists[q], q, delayed)
      requires ready[q] == lists[q] && readyLists[q] == heads[q]
      requires forall t: Slot :: t in ready[q] ==> taskPool[t].next == pool[t].next && taskPool[t].task.priority == q
      ensures ListOk(taskPool[..], readyLists[q], ready[q], q, delayed)
    {
      ListFrame(pool, taskPool[..], heads[q], lists[q], q, delayed, delayed);
    }

    /** One list was relinked, without touching blocks that are not on it. */
    lemma Relinked(pool: TcbPool, heads: seq<Ref>, lists: Levels, p: Level)
      requires taskPool.Length == MAX_TASKS && readyLists.Length == NUM_PRIORITY_LEVELS
      requires |heads| == NUM_PRIORITY_LEVELS && readyLists[..] == heads[p := readyLists[p]]
      requires ready == lists[p := ready[p]] && ListOk(taskPool[..], readyLists[p], ready[p], p, delayed)
      requires forall l: Level :: ListOk(pool, heads[l], lists[l], l, delayed)
      requires Linked(pool, delayedList, delayed) && Distinct(delayed)
      requires forall t: Slot :: taskPool[t].task.priority == pool[t].task.priority
      requires forall t: Slot :: taskPool[t].next == pool[t].next || (taskPool[t].task.priority == p && t !in delayed)
      ensures Rep()
    {
      forall l: Level ensures ListOk(taskPool[..], readyLists[l], ready[l], l, delayed) {
        assert ListOk(pool, heads[l], lists[l], l, delayed);
        if l != p {
          OtherLists(pool, heads, lists, l);
        }
      }
      LinkedFrame(pool, taskPool[..], delayedList, delayed);
    }

    method SchedulerAddTask(tcb: Ref)
      requires Rep() && (tcb.To? ==> OnNoList(tcb.slot))
      modifies taskPool, readyLists, this`ready
      ensures Rep() && Abs() == if tcb.Null? then old(Abs()) else AddTask(old(Abs()), tcb.slot)
    {
      if tcb.Null? {
        return;
      }
      var t := tcb.slot;
      var p := taskPool[t].task.priority;
      ghost var pool, heads, lists := taskPool[..], readyLists[..], ready;
      ghost var q := ready[p];
      taskPool[t] := taskPool[t].(task := taskPool[t].task.(state := READY));
      taskPool[t] := taskPool[t].(next := Null);
      assert ListOk(pool, heads[p], q, p, delayed);
      if readyLists[p].Null? {
        readyLists[p] := tcb;
        ready := ready[p := [t]];
        assert q == [];
        Single(taskPool[..], t);
      } else {
        var tail := FindTail(p, pool);
        taskPool[tail] := taskPool[tail].(next := tcb);
        ready := ready[p := q + [t]];
        Appended(pool, taskPool[..], heads[p], q, t);
      }
      assert ready[p] == q + [t];
      assert q != [] ==> q[|q| - 1] in q;
      Relinked(pool, heads, lists, p);
      assert Tasks(taskPool[..]) == AddTask(old(Abs()), t).pool;
    }

    /** The walk to the end of a ready list; the block being added is already unlinked. */
    method FindTail(p: Level, ghost pool: TcbPool) returns (tail: Slot)
      requires taskPool.Length == MAX_TASKS && readyLists.Length == NUM_PRIORITY_LEVELS
      requires Linked(pool, readyLists[p], ready[p]) && ready[p] != []
      requires forall t: Slot :: t in ready[p] ==> taskPool[t].next == pool[t].next
      ensures tail == ready[p][|ready[p]| - 1]
    {
      tail := readyLists[p].slot;
      ghost var k := 0;
      assert LinkOk(pool, ready[p], 0);
      while taskPool[tail].next.To?
        invariant 0 <= k < |ready[p]| && tail == ready[p][k] && LinkOk(pool, ready[p], k)
        decreases |ready[p]| - k
      {
        tail := taskPool[tail].next.slot;
        k := k + 1;
        assert LinkOk(pool, ready[p], k);
      }
    }

    method SchedulerRemoveTask(tcb: Ref)
      requires Rep()
      modifies taskPool, readyLists, this`ready
      ensures Rep() && Abs() == if tcb.Null? then old(Abs()) else RemoveTask(old(Abs()), tcb.slot)
    {
      if tcb.Null? {
        return;
      }
      var t := tcb.slot;
      var p := taskPool[t].task.priority;
      ghost var pool, heads, lists, q := taskPool[..], readyLists[..], ready, ready[p];
      assert ListOk(pool, heads[p], q, p, delayed);
      var prev, curr := Null, readyLists[p];
      ghost var k := 0;
      while curr.To?
        invariant 0 <= k <= |q| && curr == Nth(q, k) && t !in q[..k]
        invariant prev == if k == 0 then Null else To(q[k - 1])
        invariant taskPool[..] == pool && readyLists[..] == heads && ready == lists
        decreases |q| - k
      {
        assert LinkOk(pool, q, k);
        if curr == tcb {
          Unlink(t, p, prev, k);
          return;
        }
        prev := curr;
        curr := taskPool[curr.slot].next;
        k := k + 1;
      }
      assert q[..k] == q;
      WithoutNone(q, t);
      assert ready == lists[p := Without(q, t)];
    }

    /** Taking t, found at place k of its list, out of the chain. */
    method Unlink(t: Slot, p: Level, prev: Ref, ghost k: nat)
      requires Rep() && taskPool[t].task.priority == p
      requires k < |ready[p]| && ready[p][k] == t && t !in ready[p][..k]
      requires prev == if k == 0 then Null else To(ready[p][k - 1])
      modifies taskPool, readyLists, this`ready
      ensures Rep() && Abs() == RemoveTask(old(Abs()), t)
    {
      ghost var pool, heads, lists, q := taskPool[..], readyLists[..], ready, ready[p];
      assert ListOk(pool, heads[p], q, p, delayed);
      if prev.Null? {
        readyLists[p] := taskPool[t].next;
      } else {
        taskPool[prev.slot] := taskPool[prev.slot].(next := taskPool[t].next);
      }
      taskPool[t] := taskPool[t].(next := Null);
      WithoutAt(q, t, k);
      Bypassed(pool, taskPool[..], heads[p], readyLists[p], q, k);
      WithoutMeaning(q, t);
      ready := ready[p := Without(q, t)];
      assert q[k] in q && (k > 0 ==> q[k - 1] in q);
      assert Tasks(taskPool[..]) == old(Abs()).pool;
      Relinked(pool, heads, lists, p);
    }

    method GetHighestPriorityTask() returns (t: Ref)
      requires Rep()
      ensures t == Highest(Abs())
    {
      for i := 0 to NUM_PRIORITY_LEVELS
        invariant HighestFrom(ready, i) == HighestFrom(ready, 0)
      {
        assert ListOk(taskPool[..], readyLists[i], ready[i], i, delayed);
        if readyLists[i].To? {
          return readyLists[i];
        }
      }
      return Null;
    }

    /** Changes that leave links and priorities of listed blocks alone leave every list in place. */
    lemma RepFrame(pool: TcbPool)
      requires taskPool.Length == MAX_TASKS && readyLists.Length == NUM_PRIORITY_LEVELS
      requires forall t: Slot :: taskPool[t].next == pool[t].next || OnNoList(t)
      requires forall t: Slot :: taskPool[t].task.priority == pool[t].task.priority || OnNoList(t)
      requires forall p: Level :: ListOk(pool, readyLists[p], ready[p], p, delayed)
      requires Linked(pool, delayedList, delayed) && Distinct(delayed)
      ensures Rep()
    {
      forall p: Level ensures ListOk(taskPool[..], readyLists[p], ready[p], p, delayed) {
        assert ListOk(pool, readyLists[p], ready[p], p, delayed);
        ListFrame(pool, taskPool[..], readyLists[p], ready[p], p, delayed, delayed);
      }
      LinkedFrame(pool, taskPool[..], delayedList, delayed);
    }

    /** tcb->state = state */
    method WriteState(t: Slot, state: TaskState)
      requires Rep()
      modifies taskPool
      ensures Rep() && Abs() == SetState(old(Abs()), t, state)
    {
      ghost var pool := taskPool[..];
      taskPool[t] := taskPool[t].(task := taskPool[t].task.(state := state));
      RepFrame(pool);
      assert Tasks(taskPool[..]) == SetState(old(Abs()), t, state).pool;
    }

    method TaskSetCurrent(tcb: Ref)
      modifies this`currentTask
      ensures currentTask == tcb
    {
      currentTask := tcb;
    }

    method Schedule()
      requires Valid()
      modifies taskPool, readyLists, this`ready, this`currentTcb, this`currentTask
      ensures Rep() && Abs() == SchedModel.Schedule(old(Abs()))
    {
      ghost var s := Abs();
      var nextTask := GetHighestPriorityTask();
      if nextTask.Null? {
        return;
      }
      if nextTask != currentTcb {
        if currentTcb.To? && taskPool[currentTcb.slot].task.state == READY {
          RotateCurrent();
        }
        SwitchTo(nextTask);
      }
    }

    /** Making the chosen task the current one. */
    method SwitchTo(nextTask: Ref)
      requires Rep() && nextTask.To?
      modifies taskPool, readyLists, this`ready, this`currentTcb, this`currentTask
      ensures Rep() && Abs() == Dispatch(old(Abs()), nextTask.slot)
    {
      SchedulerRemoveTask(nextTask);
      WriteState(nextTask.slot, RUNNING);
      currentTcb := nextTask;
      TaskSetCurrent(currentTcb);
    }

    /** The requeueing step of schedule. */
    method RotateCurrent()
      requires Valid() && CurrentIs(Abs(), READY)
      modifies taskPool, readyLists, this`ready
      ensures Rep() && Abs() == Requeue(old(Abs()))
    {
      ghost var s := Abs();
      var t := currentTcb.slot;
      SchedulerRemoveTask(currentTcb);
      assert OnNoList(t) by {
        forall p: Level ensures t !in ready[p] {
          assert LevelOk(s, p);
          WithoutMeaning(s.ready[p], t);
        }
      }
      SchedulerAddTask(currentTcb);
    }

    method SchedulerYield()
      requires Valid()
      modifies taskPool, readyLists, this`ready, this`currentTcb, this`currentTask
      ensures Valid() && Abs() == Yield(old(Abs()))
    {
      ghost var s := Abs();
      YieldInv(s);
      if !schedulerRunning {
        return;
      }
      if currentTcb.To? && taskPool[currentTcb.slot].task.state == RUNNING {
        ReadyCurrent();
      }
      ReleaseInv(s);
      Schedule();
    }

    /** Marking the running task ready, at the head of scheduler_yield. */
    method ReadyCurrent()
      requires Valid() && CurrentIs(Abs(), RUNNING)
      modifies taskPool, readyLists, this`ready
      ensures Rep() && Abs() == Release(old(Abs()))
    {
      ghost var s := Abs();
      var t := currentTcb.slot;
      assert OnNoList(t) by {
        forall p: Level ensures t !in ready[p] {
          assert LevelOk(s, p);
        }
      }
      WriteState(t, READY);
      SchedulerAddTask(currentTcb);
    }

    /** Calling this while a task is running and another is ready is what the scheduler does not
        survive (SchedInvariant.StartInv). */
    method SchedulerStart()
      requires Valid()
      modifies taskPool, readyLists, this`ready, this`currentTcb, this`currentTask, this`schedulerRunning
      ensures Rep() && Abs() == Start(old(Abs()))
      ensures Valid() <==> !CurrentIs(old(Abs()), RUNNING) || Highest(old(Abs())) == Null
    {
      StartInv(Abs());
      StartFlagInv(Abs());
      schedulerRunning := true;
      Schedule();
    }

    method AddToDelayedList(t: Slot)
      requires Rep() && OnNoList(t)
      modifies taskPool, this`delayedList, this`delayed
      ensures Rep() && Abs() == AddDelayed(old(Abs()), t)
    {
      ghost var pool, q, s := taskPool[..], delayed, Abs();
      taskPool[t] := taskPool[t].(next := Null);
      ghost var k := 0;
      if delayedList.Null? {
        delayedList := To(t);
      } else if taskPool[t].task.wakeTime < taskPool[delayedList.slot].task.wakeTime {
        taskPool[t] := taskPool[t].(next := delayedList);
        delayedList := To(t);
      } else {
        var curr;
        curr, k := FindPlace(t, pool, s.pool);
        taskPool[t] := taskPool[t].(next := taskPool[curr].next);
        taskPool[curr] := taskPool[curr].(next := To(t));
      }
      delayed := q[..k] + [t] + q[k..];
      InsertAt(s.pool, q, t, k);
      assert Tasks(taskPool[..]) == s.pool;
      DelayedSpliced(pool, old(delayedList), q, t, k);
    }

    /** t now hangs behind the first k blocks of the delayed list. */
    lemma DelayedSpliced(pool: TcbPool, head: Ref, q: seq<Slot>, t: Slot, k: nat)
      requires taskPool.Length == MAX_TASKS && readyLists.Length == NUM_PRIORITY_LEVELS
      requires Linked(pool, head, q) && Distinct(q) && k <= |q| && delayed == q[..k] + [t] + q[k..]
      requires forall p: Level :: ListOk(pool, readyLists[p], ready[p], p, q)
      requires t !in q && forall p: Level :: t !in ready[p]
      requires Tasks(taskPool[..]) == Tasks(pool) && taskPool[t].next == Nth(q, k)
      requires if k == 0 then delayedList == To(t) else delayedList == head && taskPool[q[k - 1]].next == To(t)
      requires forall u: Slot :: u != t && (k > 0 ==> u != q[k - 1]) ==> taskPool[u].next == pool[u].next
      ensures Rep()
    {
      Spliced(pool, taskPool[..], head, delayedList, q, t, k);
      assert k > 0 ==> q[k - 1] in q;
      forall u: Slot ensures taskPool[u].task.priority == pool[u].task.priority {
        assert Tasks(taskPool[..])[u] == Tasks(pool)[u];
      }
      ReadyListsStay(pool, q);
    }

    /** The walk to the last block that wakes no later than t. */
    method FindPlace(t: Slot, ghost pool: TcbPool, ghost tasks: Pool) returns (curr: Slot, ghost k: nat)
      requires taskPool.Length == MAX_TASKS && t !in delayed && delayed != []
      requires Linked(pool, delayedList, delayed) && taskPool[..] == pool[t := pool[t].(next := Null)]
      requires tasks == Tasks(taskPool[..])
      requires tasks[delayed[0]].wakeTime <= tasks[t].wakeTime
      ensures 0 < k <= |delayed| && curr == delayed[k - 1] && taskPool[curr].next == Nth(delayed, k)
      ensures k < |delayed| ==> tasks[t].wakeTime < tasks[delayed[k]].wakeTime
      ensures forall i :: 0 <= i < k ==> tasks[delayed[i]].wakeTime <= tasks[t].wakeTime
    {
      curr, k := delayedList.slot, 1;
      assert LinkOk(pool, delayed, 0);
      while taskPool[curr].next.To? && taskPool[taskPool[curr].next.slot].task.wakeTime <= taskPool[t].task.wakeTime
        invariant 0 < k <= |delayed| && curr == delayed[k - 1] && LinkOk(pool, delayed, k - 1)
        invariant forall i :: 0 <= i < k ==> tasks[delayed[i]].wakeTime <= tasks[t].wakeTime
        decreases |delayed| - k
      {
        curr := taskPool[curr].next.slot;
        k := k + 1;
        assert LinkOk(pool, delayed, k - 1);
      }
    }

    /** The delayed list was relinked, touching no block that is on a ready list. */
    lemma ReadyListsStay(pool: TcbPool, q: seq<Slot>)
      requires taskPool.Length == MAX_TASKS && readyLists.Length == NUM_PRIORITY_LEVELS
      requires forall p: Level :: ListOk(pool, readyLists[p], ready[p], p, q)
      requires Linked(taskPool[..], delayedList, delayed) && Distinct(delayed)
      requires forall u: Slot :: taskPool[u].task.priority == pool[u].task.priority
      requires forall u: Slot :: taskPool[u].next == pool[u].next || u in q || forall p: Level :: u !in ready[p]
      requires forall u: Slot :: u in delayed ==> u in q || forall p: Level :: u !in ready[p]
      ensures Rep()
    {
      forall p: Level ensures ListOk(taskPool[..], readyLists[p], ready[p], p, delayed) {
        assert ListOk(pool, readyLists[p], ready[p], p, q);
        ListFrame(pool, taskPool[..], readyLists[p], ready[p], p, q, delayed);
      }
    }

    method ProcessDelayedTasks()
      requires Rep()
      modifies taskPool, readyLists, this`ready, this`delayedList, this`delayed
      ensures Rep() && Abs() == ProcessDelayed(old(Abs()))
    {
      while delayedList.To? && taskPool[delayedList.slot].task.wakeTime <= systemTickCount
        invariant Rep() && ProcessDelayed(Abs()) == ProcessDelayed(old(Abs()))
        decreases |delayed|
      {
        WakeFirst();
      }
    }

    /** One turn of the loop in process_delayed_tasks. */
    method WakeFirst()
      requires Rep() && delayed != [] && delayedList.To?
      modifies taskPool, readyLists, this`ready, this`delayedList, this`delayed
      ensures Rep() && |delayed| < |old(delayed)|
      ensures var s := old(Abs()); Abs() == AddTask(s.(delayed := s.delayed[1..]), s.delayed[0])
    {
      var task := UnlinkFirst();
      SchedulerAddTask(To(task));
    }

    method UnlinkFirst() returns (task: Slot)
      requires Rep() && delayed != [] && delayedList.To?
      modifies taskPool, this`delayedList, this`delayed
      ensures Rep() && delayed == old(delayed)[1..] && task == old(delayed)[0] && OnNoList(task)
      ensures var s := old(Abs()); Abs() == SetState(s, task, READY).(delayed := s.delayed[1..])
    {
      ghost var pool, q, s := taskPool[..], delayed, Abs();
      task := delayedList.slot;
      delayedList := taskPool[task].next;
      delayed := q[1..];
      taskPool[task] := taskPool[task].(task := taskPool[task].task.(state := READY), next := Null);
      FirstTaken(pool, taskPool[..], old(delayedList), q);
      assert Tasks(taskPool[..]) == SetState(s, task, READY).pool;
      ReadyListsStay(pool, q);
      assert forall p: Level :: ListOk(pool, readyLists[p], ready[p], p, q);
    }

    method SchedulerTick()
      requires Valid()
      modifies taskPool, readyLists, this`ready, this`delayedList, this`delayed, this`systemTickCount,
               this`currentTcb, this`currentTask
      ensures Valid() && Abs() == Tick(old(Abs()))
    {
      ghost var a := Awaken(Abs(), (systemTickCount + 1) % U32);
      AwakenInv(Abs(), (systemTickCount + 1) % U32);
      TickIs(Abs(), a);
      AdvanceClock(a);
      CheckPreemption(Preempt(a));
    }

    /** The clock and the delayed tasks; a is what they lead to. */
    method AdvanceClock(ghost a: Sched)
      requires Rep() && a == Awaken(Abs(), (systemTickCount + 1) % U32)
      modifies taskPool, readyLists, this`ready, this`delayedList, this`delayed, this`systemTickCount
      ensures Rep() && Abs() == a
    {
      CountTick();
      ProcessDelayedTasks();
    }

    /** system_tick_count++ */
    method CountTick()
      requires Rep()
      modifies this`systemTickCount
      ensures Rep() && Abs() == old(Abs()).(tick := (old(systemTickCount) + 1) % U32)
    {
      systemTickCount := (systemTickCount + 1) % U32;
    }

    /** The check for preemption; r is what it leads to. */
    method CheckPreemption(ghost r: Sched)
      requires Valid() && r == Preempt(Abs())
      modifies taskPool, readyLists, this`ready, this`currentTcb, this`currentTask
      ensures Valid() && Abs() == r
    {
      if schedulerRunning {
        var highest := GetHighestPriorityTask();
        if highest.To? && currentTcb.To?
           && taskPool[highest.slot].task.priority < taskPool[currentTcb.slot].task.priority {
          SchedulerYield();
        }
      }
    }

    // -------------------------------------------------------------------------------------------
    // task.c
    // -------------------------------------------------------------------------------------------

    method TaskGetTcb(taskId: nat) returns (tcb: Ref)
      requires taskPool.Length == MAX_TASKS
      ensures tcb == TaskSlot(Tasks(taskPool[..]), taskId, 0)
    {
      ghost var pool := Tasks(taskPool[..]);
      for i := 0 to MAX_TASKS
        invariant TaskSlot(pool, taskId, i) == TaskSlot(pool, taskId, 0)
      {
        if taskPool[i].task.id == taskId && taskPool[i].task.state != DELETED {
          return To(i);
        }
      }
      return Null;
    }

    method FindFreeTcb() returns (tcb: Ref)
      requires taskPool.Length == MAX_TASKS
      ensures tcb == FreeSlot(Tasks(taskPool[..]), 0)
    {
      ghost var pool := Tasks(taskPool[..]);
      for i := 0 to MAX_TASKS
        invariant FreeSlot(pool, i) == FreeSlot(pool, 0)
      {
        if taskPool[i].task.state == DELETED || taskPool[i].task.id == 0 {
          return To(i);
        }
      }
      return Null;
    }

    /** The entry point must not be null; priority is a byte. */
    method TaskCreate(hasFunction: bool, priority: nat) returns (status: Status, taskId: nat)
      requires Valid()
      modifies taskPool, readyLists, this`ready, this`nextTaskId
      ensures Rep() && (Valid() <==> status != OK || old(nextTaskId) + 1 < U32)
      ensures !hasFunction ==> status == INVALID_PARAM && Abs() == old(Abs())
      ensures hasFunction ==> (Abs(), status) == Create(old(Abs()), priority)
      ensures status == OK ==> taskId == old(nextTaskId)
    {
      taskId := 0;
      if !hasFunction || priority >= NUM_PRIORITY_LEVELS {
        return INVALID_PARAM, taskId;
      }
      CreateInv(Abs(), priority);
      FreeSlotMeaning(Abs().pool, 0);
      var tcb := FindFreeTcb();
      if tcb.Null? {
        return NO_MEMORY, taskId;
      }
      taskId := nextTaskId;
      AddNewTask(tcb.slot, priority);
      return OK, taskId;
    }

    method AddNewTask(t: Slot, priority: Level)
      requires Valid() && (taskPool[t].task.state == DELETED || taskPool[t].task.id == 0)
      modifies taskPool, readyLists, this`ready, this`nextTaskId
      ensures Rep() && Abs() == AddTask(NewTask(old(Abs()), t, priority), t)
    {
      FreeIsOnNoList(t);
      InitTcb(t, priority);
      SchedulerAddTask(To(t));
    }

    /** Clearing a free block and filling in the new task. */
    method InitTcb(t: Slot, priority: Level)
      requires Rep() && OnNoList(t)
      modifies taskPool, this`nextTaskId
      ensures Rep() && OnNoList(t)
      ensures Abs() == NewTask(old(Abs()), t, priority)
    {
      ghost var pool, s := taskPool[..], Abs();
      taskPool[t] := Tcb(UNUSED, Null);
      taskPool[t] := taskPool[t].(task := taskPool[t].task.(id := nextTaskId));
      nextTaskId := (nextTaskId + 1) % U32;
      taskPool[t] := taskPool[t].(task := taskPool[t].task.(priority := priority));
      taskPool[t] := taskPool[t].(task := taskPool[t].task.(state := READY));
      RepFrame(pool);
      assert Tasks(taskPool[..]) == NewTask(s, t, priority).pool;
    }

    lemma FreeIsOnNoList(t: Slot)
      requires Valid() && (taskPool[t].task.state == DELETED || taskPool[t].task.id == 0)
      ensures OnNoList(t)
    {
      forall p: Level ensures t !in ready[p] {
        assert LevelOk(Abs(), p);
      }
    }

    method TaskYield()
      requires Valid()
      modifies taskPool, readyLists, this`ready, this`currentTcb, this`currentTask
      ensures Valid() && Abs() == Yield(old(Abs()))
    {
      SchedulerYield();
    }

    /** The order task_delete works in. */
    method RemoveAndMark(t: Slot)
      requires Valid() && t !in delayed
      modifies taskPool, readyLists, this`ready
      ensures Valid() && Abs() == Retire(old(Abs()), t, DELETED)
    {
      RetireInv(Abs(), t, DELETED);
      SchedulerRemoveTask(To(t));
      WriteState(t, DELETED);
    }

    /** The order task_suspend and task_delay work in. */
    method MarkAndRemove(t: Slot, state: TaskState)
      requires Valid() && state in {BLOCKED, SUSPENDED} && (t in delayed ==> state == BLOCKED)
      modifies taskPool, readyLists, this`ready
      ensures Rep() && Abs() == Retire(old(Abs()), t, state)
      ensures old(Used(Abs(), t)) ==> Valid()
    {
      if Used(Abs(), t) {
        RetireInv(Abs(), t, state);
      }
      WriteState(t, state);
      SchedulerRemoveTask(To(t));
    }

    method YieldIfCurrent(t: Slot)
      requires Rep() && (To(t) == currentTask ==> Valid())
      modifies taskPool, readyLists, this`ready, this`currentTcb, this`currentTask
      ensures Rep() && Abs() == SchedModel.YieldIfCurrent(old(Abs()), t)
    {
      if To(t) == currentTask {
        TaskYield();
      }
    }

    /** Off its list, into a state that is on none, and away from it if it was the current task. */
    method TaskDelete(taskId: nat) returns (status: Status)
      requires Valid() && !Listed(Abs(), taskId)
      modifies taskPool, readyLists, this`ready, this`currentTcb, this`currentTask
      ensures Valid() && (Abs(), status) == Delete(old(Abs()), taskId)
    {
      DeleteInv(Abs(), taskId);
      var tcb := TaskGetTcb(taskId);
      if tcb.Null? {
        return INVALID_PARAM;
      }
      RemoveAndMark(tcb.slot);
      YieldIfCurrent(tcb.slot);
      return OK;
    }

    /** Identifier 0 is that of an unused slot. */
    method TaskSuspend(taskId: nat) returns (status: Status)
      requires Valid() && !Listed(Abs(), taskId)
      modifies taskPool, readyLists, this`ready, this`currentTcb, this`currentTask
      ensures Rep() && (Abs(), status) == Suspend(old(Abs()), taskId)
      ensures Valid() <==> taskId != 0 || status == INVALID_PARAM
      ensures ListsOk(Abs())
    {
      SuspendInv(Abs(), taskId);
      SuspendLists(Abs(), taskId);
      TaskSlotMeaning(Abs().pool, taskId, 0);
      var tcb := TaskGetTcb(taskId);
      if tcb.Null? || taskPool[tcb.slot].task.state == DELETED {
        return INVALID_PARAM;
      }
      MarkAndRemove(tcb.slot, SUSPENDED);
      YieldIfCurrent(tcb.slot);
      return OK;
    }

    /** The lists must be in order, as they are after any call; an unused slot that task_suspend(0)
        has marked is resumed like a task. */
    method TaskResume(taskId: nat) returns (status: Status)
      requires Rep() && ListsOk(Abs())
      modifies taskPool, readyLists, this`ready
      ensures Rep() && (Abs(), status) == Resume(old(Abs()), taskId)
      ensures old(Valid()) ==> Valid()
    {
      if Inv(Abs()) {
        ResumeInv(Abs(), taskId);
      }
      var tcb := TaskGetTcb(taskId);
      if tcb.Null? || taskPool[tcb.slot].task.state != SUSPENDED {
        return INVALID_PARAM;
      }
      MakeReady(tcb.slot);
      return OK;
    }

    /** A suspended task goes back on its list; scheduler_add_task writes READY once more. */
    method MakeReady(t: Slot)
      requires Rep() && ListsOk(Abs()) && taskPool[t].task.state == SUSPENDED
      modifies taskPool, readyLists, this`ready
      ensures Rep() && Abs() == AddTask(old(Abs()), t)
    {
      ghost var s := Abs();
      assert OnNoList(t) by {
        forall p: Level ensures t !in ready[p] {
          assert LevelOk(s, p);
        }
      }
      assert SetState(SetState(s, t, READY), t, READY).pool == SetState(s, t, READY).pool;
      WriteState(t, READY);
      SchedulerAddTask(To(t));
    }

    method TaskDelay(ticks: nat)
      requires Valid()
      modifies taskPool, readyLists, this`ready, this`currentTcb, this`currentTask
      ensures Valid() && Abs() == Delay(old(Abs()), ticks)
    {
      if currentTask.To? && ticks > 0 {
        ghost var b := Blocked(Abs(), currentTask.slot, (systemTickCount + ticks) % U32);
        DelayIs(Abs(), ticks, b);
        BlockUntil(currentTask.slot, (systemTickCount + ticks) % U32, b);
        TaskYield();
      }
    }

    /** b is what this leads to. */
    method BlockUntil(t: Slot, wakeTime: nat, ghost b: Sched)
      requires Valid() && Used(Abs(), t) && b == Blocked(Abs(), t, wakeTime)
      modifies taskPool, readyLists, this`ready
      ensures Valid() && Abs() == b
    {
      WriteWakeTime(t, wakeTime);
      MarkAndRemove(t, BLOCKED);
    }

    /** tcb->wake_time = wakeTime */
    method WriteWakeTime(t: Slot, wakeTime: nat)
      requires Valid() && Used(Abs(), t)
      modifies taskPool
      ensures Valid()
      ensures var s := old(Abs()); Abs() == s.(pool := s.pool[t := s.pool[t].(wakeTime := wakeTime)])
    {
      ghost var pool, s := taskPool[..], Abs();
      WakeTimeInv(s, t, wakeTime);
      taskPool[t] := taskPool[t].(task := taskPool[t].task.(wakeTime := wakeTime));
      RepFrame(pool);
      assert Tasks(taskPool[..]) == s.pool[t := s.pool[t].(wakeTime := wakeTime)];
    }

    method TaskGetCurrentId() returns (id: nat)
      requires Valid()
      ensures id == if currentTask.To? then Abs().pool[currentTask.slot].id else 0
    {
      id := if currentTask.To? then taskPool[currentTask.slot].task.id else 0;
    }
  }
}
