/**
  The scheduler and task manager (src/kernel/scheduler.c, src/kernel/task.c) as a state machine on
  values. A task is named by its slot in task_pool and a ready list is a sequence of slots;
  Scheduler.dfy shows that the linked lists of the code behave like this.
*/
module SchedModel {

  const MAX_TASKS: int := 16
  const NUM_PRIORITY_LEVELS: int := 32
  const U32: nat := 0x1_0000_0000

  type Slot = t: int | 0 <= t < MAX_TASKS witness 0
  type Level = p: int | 0 <= p < NUM_PRIORITY_LEVELS witness 0

  /** A pointer into task_pool. */
  datatype Ref = Null | To(slot: Slot)

  datatype TaskState = READY | RUNNING | BLOCKED | SUSPENDED | DELETED

  /** The scheduling fields of a task control block. */
  datatype Task = Task(state: TaskState, priority: Level, id: nat, wakeTime: nat)

  /** A zeroed slot. */
  const UNUSED := Task(READY, 0, 0, 0)

  type Pool = s: seq<Task> | |s| == MAX_TASKS witness seq(MAX_TASKS, _ => UNUSED)
  type Levels = r: seq<seq<Slot>> | |r| == NUM_PRIORITY_LEVELS witness seq(NUM_PRIORITY_LEVELS, _ => [])

  datatype Sched = Sched(
    pool: Pool,
    ready: Levels,
    delayed: seq<Slot>,
    currentTcb: Ref,
    currentTask: Ref,
    tick: nat,
    running: bool,
    nextId: nat)

  /** After task_init and scheduler_init. */
  function Initial(): Sched {
    Sched(seq(MAX_TASKS, _ => UNUSED), seq(NUM_PRIORITY_LEVELS, _ => []), [], Null, Null, 0, false, 1)
  }

  // ---------------------------------------------------------------------------------------------
  // Lists of slots
  // ---------------------------------------------------------------------------------------------

  /** Unlinking the first occurrence of t. */
  function Without(q: seq<Slot>, t: Slot): seq<Slot> {
    if q == [] then []
    else if q[0] == t then q[1..]
    else [q[0]] + Without(q[1..], t)
  }

  ghost predicate Distinct(q: seq<Slot>) {
    forall i, j :: 0 <= i < j < |q| ==> q[i] != q[j]
  }

  lemma {:induction false} WithoutMeaning(q: seq<Slot>, t: Slot)
    requires Distinct(q)
    ensures Distinct(Without(q, t))
    ensures forall x :: x in Without(q, t) <==> x in q && x != t
    ensures t !in q ==> Without(q, t) == q
  {
    if q != [] {
      WithoutMeaning(q[1..], t);
      assert forall x :: x in q <==> x == q[0] || x in q[1..];
      if q[0] != t {
        var w := Without(q[1..], t);
        assert forall x :: x in [q[0]] + w <==> x == q[0] || x in w;
        assert q[0] !in q[1..];
        assert Distinct([q[0]] + w);
      }
    }
  }

  lemma {:induction false} WithoutLast(q: seq<Slot>, t: Slot)
    requires t !in q
    ensures Without(q + [t], t) == q
  {
    if q == [] {
      assert [] + [t] == [t];
    } else {
      WithoutLast(q[1..], t);
      assert (q + [t])[1..] == q[1..] + [t];
    }
  }

  // ---------------------------------------------------------------------------------------------
  // scheduler.c
  // ---------------------------------------------------------------------------------------------

  function SetState(s: Sched, t: Slot, st: TaskState): Sched {
    s.(pool := s.pool[t := s.pool[t].(state := st)])
  }

  function AddTask(s: Sched, t: Slot): Sched {
    var p := s.pool[t].priority;
    SetState(s, t, READY).(ready := s.ready[p := s.ready[p] + [t]])
  }

  function RemoveTask(s: Sched, t: Slot): Sched {
    var p := s.pool[t].priority;
    s.(ready := s.ready[p := Without(s.ready[p], t)])
  }

  /** The head of the first non-empty list from level p on. */
  function HighestFrom(ready: Levels, p: nat): Ref
    requires p <= NUM_PRIORITY_LEVELS
    decreases NUM_PRIORITY_LEVELS - p
  {
    if p == NUM_PRIORITY_LEVELS then Null
    else if ready[p] != [] then To(ready[p][0])
    else HighestFrom(ready, p + 1)
  }

  function Highest(s: Sched): Ref {
    HighestFrom(s.ready, 0)
  }

  predicate CurrentIs(s: Sched, st: TaskState) {
    s.currentTcb.To? && s.pool[s.currentTcb.slot].state == st
  }

  /** The rotation inside schedule: a current task that is ready goes to the end of its list. */
  function Requeue(s: Sched): Sched {
    if CurrentIs(s, READY) then AddTask(RemoveTask(s, s.currentTcb.slot), s.currentTcb.slot) else s
  }

  /** Taking the chosen task off its list and making it current. */
  function Dispatch(s: Sched, t: Slot): Sched {
    SetState(RemoveTask(s, t), t, RUNNING).(currentTcb := To(t), currentTask := To(t))
  }

  function Schedule(s: Sched): Sched {
    var next := Highest(s);
    if next == Null || next == s.currentTcb then s else Dispatch(Requeue(s), next.slot)
  }

  /** What scheduler_yield does before it schedules. */
  function Release(s: Sched): Sched {
    if CurrentIs(s, RUNNING) then AddTask(SetState(s, s.currentTcb.slot, READY), s.currentTcb.slot) else s
  }

  function Yield(s: Sched): Sched {
    if s.running then Schedule(Release(s)) else s
  }

  function Start(s: Sched): Sched {
    Schedule(s.(running := true))
  }

  /** Where add_to_delayed_list puts t: behind every task that wakes no later. */
  function Insert(pool: Pool, q: seq<Slot>, t: Slot): seq<Slot> {
    if q == [] || pool[t].wakeTime < pool[q[0]].wakeTime then [t] + q
    else [q[0]] + Insert(pool, q[1..], t)
  }

  function AddDelayed(s: Sched, t: Slot): Sched {
    s.(delayed := Insert(s.pool, s.delayed, t))
  }

  function ProcessDelayed(s: Sched): Sched
    decreases |s.delayed|
  {
    if s.delayed != [] && s.pool[s.delayed[0]].wakeTime <= s.tick
    then ProcessDelayed(AddTask(s.(delayed := s.delayed[1..]), s.delayed[0]))
    else s
  }

  /** Whether the tick finds a ready task of higher priority than the current one. */
  predicate Preempts(s: Sched) {
    && s.running
    && Highest(s).To? && s.currentTcb.To?
    && s.pool[Highest(s).slot].priority < s.pool[s.currentTcb.slot].priority
  }

  function Preempt(s: Sched): Sched {
    if Preempts(s) then Yield(s) else s
  }

  /** The clock at a new value, and the delayed tasks that are due then. */
  function Awaken(s: Sched, tick: nat): Sched {
    ProcessDelayed(s.(tick := tick))
  }

  function Tick(s: Sched): Sched {
    Preempt(Awaken(s, (s.tick + 1) % U32))
  }

  /** Tick for its parts under other names, so that a proof need not look into them. */
  lemma TickIs(s: Sched, a: Sched)
    requires a == Awaken(s, (s.tick + 1) % U32)
    ensures Tick(s) == Preempt(a)
  {
  }

  // ---------------------------------------------------------------------------------------------
  // task.c
  // ---------------------------------------------------------------------------------------------

  datatype Status = OK | INVALID_PARAM | NO_MEMORY

  /** The first slot, from i on, that task_create may take. */
  function FreeSlot(pool: Pool, i: nat): Ref
    requires i <= MAX_TASKS
    decreases MAX_TASKS - i
  {
    if i == MAX_TASKS then Null
    else if pool[i].state == DELETED || pool[i].id == 0 then To(i)
    else FreeSlot(pool, i + 1)
  }

  /** The first slot, from i on, of a task with this id that is not deleted. */
  function TaskSlot(pool: Pool, id: nat, i: nat): Ref
    requires i <= MAX_TASKS
    decreases MAX_TASKS - i
  {
    if i == MAX_TASKS then Null
    else if pool[i].id == id && pool[i].state != DELETED then To(i)
    else TaskSlot(pool, id, i + 1)
  }

  /** Slot t cleared and filled in. */
  function NewTask(s: Sched, t: Slot, priority: Level): Sched {
    s.(pool := s.pool[t := Task(READY, priority, s.nextId, 0)], nextId := (s.nextId + 1) % U32)
  }

  function Create(s: Sched, priority: nat): (Sched, Status) {
    if priority >= NUM_PRIORITY_LEVELS then (s, INVALID_PARAM)
    else match FreeSlot(s.pool, 0)
      case Null => (s, NO_MEMORY)
      case To(t) =>
        (AddTask(NewTask(s, t, priority), t), OK)
  }

  /** Taking a task off its list, if it is on one, and giving it a state in which it is on none. */
  function Retire(s: Sched, t: Slot, st: TaskState): Sched {
    SetState(RemoveTask(s, t), t, st)
  }

  function YieldIfCurrent(s: Sched, t: Slot): Sched {
    if To(t) == s.currentTask then Yield(s) else s
  }

  function Delete(s: Sched, id: nat): (Sched, Status) {
    match TaskSlot(s.pool, id, 0)
    case Null => (s, INVALID_PARAM)
    case To(t) => (YieldIfCurrent(Retire(s, t, DELETED), t), OK)
  }

  function Suspend(s: Sched, id: nat): (Sched, Status) {
    match TaskSlot(s.pool, id, 0)
    case Null => (s, INVALID_PARAM)
    case To(t) => (YieldIfCurrent(Retire(s, t, SUSPENDED), t), OK)
  }

  function Resume(s: Sched, id: nat): (Sched, Status) {
    match TaskSlot(s.pool, id, 0)
    case Null => (s, INVALID_PARAM)
    case To(t) => if s.pool[t].state == SUSPENDED then (AddTask(s, t), OK) else (s, INVALID_PARAM)
  }

  /** A task that has noted its wake-up time and left its list. */
  function Blocked(s: Sched, t: Slot, wakeTime: nat): Sched {
    Retire(s.(pool := s.pool[t := s.pool[t].(wakeTime := wakeTime)]), t, BLOCKED)
  }

  function Delay(s: Sched, ticks: nat): Sched {
    if s.currentTask.To? && ticks > 0 then
      Yield(Blocked(s, s.currentTask.slot, (s.tick + ticks) % U32))
    else s
  }

  lemma DelayIs(s: Sched, ticks: nat, b: Sched)
    requires s.currentTask.To? && ticks > 0 && b == Blocked(s, s.currentTask.slot, (s.tick + ticks) % U32)
    ensures Delay(s, ticks) == Yield(b)
  {
  }
}
