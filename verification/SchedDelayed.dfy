/**
  The delayed list (add_to_delayed_list and process_delayed_tasks in src/kernel/scheduler.c).
  No code path of the kernel fills this list, so these are properties of the two functions and of
  the tick for a list filled by add_to_delayed_list.
*/
module SchedDelayed {
  import opened SchedInvariant
  import opened SchedModel

  ghost predicate SortedBy(pool: Pool, q: seq<Slot>) {
    forall i, j :: 0 <= i < j < |q| ==> pool[q[i]].wakeTime <= pool[q[j]].wakeTime
  }

  /** How many tasks at the head of q wake no later than t. */
  function Rank(pool: Pool, q: seq<Slot>, t: Slot): (k: nat)
    ensures k <= |q|
  {
    if q == [] || pool[t].wakeTime < pool[q[0]].wakeTime then 0 else 1 + Rank(pool, q[1..], t)
  }

  lemma {:induction false} RankMeaning(pool: Pool, q: seq<Slot>, t: Slot)
    requires SortedBy(pool, q)
    ensures forall i :: 0 <= i < |q| ==> (i < Rank(pool, q, t) <==> pool[q[i]].wakeTime <= pool[t].wakeTime)
  {
    if q != [] && pool[q[0]].wakeTime <= pool[t].wakeTime {
      RankMeaning(pool, q[1..], t);
      assert forall i :: 0 < i < |q| ==> q[i] == q[1..][i - 1];
    }
  }

  lemma {:induction false} InsertPlace(pool: Pool, q: seq<Slot>, t: Slot)
    ensures Insert(pool, q, t) == q[..Rank(pool, q, t)] + [t] + q[Rank(pool, q, t)..]
  {
    if q == [] || pool[t].wakeTime < pool[q[0]].wakeTime {
      assert [t] + q == q[..0] + [t] + q[0..];
    } else {
      var k := Rank(pool, q[1..], t);
      InsertPlace(pool, q[1..], t);
      assert q[..k + 1] == [q[0]] + q[1..][..k] && q[k + 1..] == q[1..][k..];
    }
  }

  /** A task goes behind those that wake earlier or at the same tick, and before all others; the
      others keep their order. */
  lemma {:induction false} InsertMeaning(pool: Pool, q: seq<Slot>, t: Slot)
    requires SortedBy(pool, q)
    ensures var k := Rank(pool, q, t);
            && Insert(pool, q, t) == q[..k] + [t] + q[k..]
            && (forall i :: 0 <= i < k ==> pool[q[i]].wakeTime <= pool[t].wakeTime)
            && (forall i :: k <= i < |q| ==> pool[t].wakeTime < pool[q[i]].wakeTime)
  {
    RankMeaning(pool, q, t);
    InsertPlace(pool, q, t);
  }

  lemma {:induction false} InsertSorted(pool: Pool, q: seq<Slot>, t: Slot)
    requires SortedBy(pool, q)
    ensures SortedBy(pool, Insert(pool, q, t))
  {
    InsertMeaning(pool, q, t);
    var k := Rank(pool, q, t);
    SplicedSorted(pool, q[..k], t, q[k..]);
  }

  lemma SplicedSorted(pool: Pool, a: seq<Slot>, t: Slot, b: seq<Slot>)
    requires SortedBy(pool, a) && SortedBy(pool, b)
    requires forall i :: 0 <= i < |a| ==> pool[a[i]].wakeTime <= pool[t].wakeTime
    requires forall i :: 0 <= i < |b| ==> pool[t].wakeTime < pool[b[i]].wakeTime
    ensures SortedBy(pool, a + [t] + b)
  {
  }

  lemma {:induction false} InsertKeeps(pool: Pool, q: seq<Slot>, t: Slot)
    requires Distinct(q) && t !in q
    ensures Distinct(Insert(pool, q, t))
    ensures forall x :: x in Insert(pool, q, t) <==> x in q || x == t
  {
    if q == [] || pool[t].wakeTime < pool[q[0]].wakeTime {
    } else {
      InsertKeeps(pool, q[1..], t);
      var w := Insert(pool, q[1..], t);
      assert forall x :: x in q <==> x == q[0] || x in q[1..];
      assert forall x :: x in [q[0]] + w <==> x == q[0] || x in w;
      assert q[0] !in w;
    }
  }

  lemma AddDelayedInv(s: Sched, t: Slot)
    requires Inv(s) && Used(s, t) && s.pool[t].state == BLOCKED && t !in s.delayed
    ensures Inv(AddDelayed(s, t))
  {
    var r := AddDelayed(s, t);
    InsertKeeps(s.pool, s.delayed, t);
    forall p: Level ensures LevelOk(r, p) {
      assert LevelOk(s, p);
    }
  }

  // ---------------------------------------------------------------------------------------------
  // Waking
  // ---------------------------------------------------------------------------------------------

  /** How many tasks at the head of q are due. */
  function DueCount(pool: Pool, q: seq<Slot>, tick: nat): (n: nat)
    ensures n <= |q|
  {
    if q == [] || tick < pool[q[0]].wakeTime then 0 else 1 + DueCount(pool, q[1..], tick)
  }

  lemma {:induction false} DueMeaning(pool: Pool, q: seq<Slot>, tick: nat)
    requires SortedBy(pool, q)
    ensures forall i :: 0 <= i < |q| ==> (i < DueCount(pool, q, tick) <==> pool[q[i]].wakeTime <= tick)
  {
    if q != [] && pool[q[0]].wakeTime <= tick {
      DueMeaning(pool, q[1..], tick);
      assert forall i :: 0 < i < |q| ==> q[i] == q[1..][i - 1];
    }
  }

  /** The tasks of one level, in the order of q. */
  function OfLevel(pool: Pool, q: seq<Slot>, p: Level): seq<Slot> {
    if q == [] then []
    else (if pool[q[0]].priority == p then [q[0]] else []) + OfLevel(pool, q[1..], p)
  }

  lemma {:induction false} OfLevelFrame(pool: Pool, pool': Pool, q: seq<Slot>, p: Level)
    requires forall t: Slot :: pool'[t].priority == pool[t].priority
    ensures OfLevel(pool', q, p) == OfLevel(pool, q, p)
  {
    if q != [] {
      OfLevelFrame(pool, pool', q[1..], p);
    }
  }

  lemma {:induction false} DueFrame(pool: Pool, pool': Pool, q: seq<Slot>, tick: nat)
    requires forall t: Slot :: pool'[t].wakeTime == pool[t].wakeTime
    ensures DueCount(pool', q, tick) == DueCount(pool, q, tick)
  {
    if q != [] {
      DueFrame(pool, pool', q[1..], tick);
    }
  }

  /** r is s with the first n delayed tasks off the list and ready. */
  ghost predicate Woken(s: Sched, r: Sched, n: nat)
    requires n <= |s.delayed|
  {
    && r == s.(pool := r.pool, ready := r.ready, delayed := s.delayed[n..])
    && forall t: Slot :: r.pool[t] == if t in s.delayed[..n] then s.pool[t].(state := READY) else s.pool[t]
  }

  lemma WokenMore(s: Sched, s1: Sched, r: Sched, m: nat)
    requires s.delayed != [] && s1 == AddTask(s.(delayed := s.delayed[1..]), s.delayed[0])
    requires m <= |s1.delayed| && Woken(s1, r, m)
    ensures Woken(s, r, m + 1)
  {
    var q := s.delayed;
    assert q[..m + 1] == [q[0]] + q[1..][..m] && q[1..][m..] == q[m + 1..];
  }

  /** Processing the list takes off its due part and readies those tasks, ... */
  lemma {:induction false} ProcessPool(s: Sched)
    ensures Woken(s, ProcessDelayed(s), DueCount(s.pool, s.delayed, s.tick))
    decreases |s.delayed|
  {
    var q := s.delayed;
    if q != [] && s.pool[q[0]].wakeTime <= s.tick {
      var s1 := AddTask(s.(delayed := q[1..]), q[0]);
      ProcessPool(s1);
      DueFrame(s.pool, s1.pool, q[1..], s.tick);
      WokenMore(s, s1, ProcessDelayed(s1), DueCount(s1.pool, q[1..], s.tick));
    } else {
      assert q[0..] == q && q[..0] == [];
    }
  }

  /** ... and appends them, in the order of the list, to the ready lists of their levels. */
  lemma {:induction false} ProcessReady(s: Sched, p: Level)
    ensures ProcessDelayed(s).ready[p] ==
            s.ready[p] + OfLevel(s.pool, s.delayed[..DueCount(s.pool, s.delayed, s.tick)], p)
    decreases |s.delayed|
  {
    var q := s.delayed;
    if q != [] && s.pool[q[0]].wakeTime <= s.tick {
      var s1 := AddTask(s.(delayed := q[1..]), q[0]);
      var m := DueCount(s1.pool, q[1..], s.tick);
      ProcessReady(s1, p);
      DueFrame(s.pool, s1.pool, q[1..], s.tick);
      assert q[..m + 1][1..] == q[1..][..m];
      OneMore(s, q[..m + 1], p);
    }
  }

  lemma {:induction false} OneMore(s: Sched, q: seq<Slot>, p: Level)
    requires q != []
    ensures var s1 := AddTask(s, q[0]);
            s1.ready[p] + OfLevel(s1.pool, q[1..], p) == s.ready[p] + OfLevel(s.pool, q, p)
  {
    OfLevelFrame(s.pool, AddTask(s, q[0]).pool, q[1..], p);
  }

  /** Exactly the due tasks leave the list, and they are ready when process_delayed_tasks ends. */
  lemma {:induction false} ProcessWakesDue(s: Sched, t: Slot)
    requires SortedBy(s.pool, s.delayed) && Distinct(s.delayed) && t in s.delayed
    ensures t in ProcessDelayed(s).delayed <==> s.tick < s.pool[t].wakeTime
    ensures s.pool[t].wakeTime <= s.tick ==> ProcessDelayed(s).pool[t].state == READY
  {
    ProcessPool(s);
    DueMeaning(s.pool, s.delayed, s.tick);
    var n := DueCount(s.pool, s.delayed, s.tick);
    var i :| 0 <= i < |s.delayed| && s.delayed[i] == t;
    if i < n {
      assert s.delayed[..n][i] == t;
    } else {
      assert s.delayed[n..][i - n] == t;
    }
  }

  lemma {:induction false} ProcessKeepsSorted(s: Sched)
    requires SortedBy(s.pool, s.delayed)
    ensures SortedBy(ProcessDelayed(s).pool, ProcessDelayed(s).delayed)
    ensures forall t: Slot :: ProcessDelayed(s).pool[t].wakeTime == s.pool[t].wakeTime
  {
    ProcessPool(s);
  }

  // ---------------------------------------------------------------------------------------------
  // Waking on time, whatever else is called
  // ---------------------------------------------------------------------------------------------

  /** t wakes at w: until then it is on the list, and from then on it can run or is running. */
  ghost predicate Wakes(s: Sched, t: Slot, w: nat) {
    && Inv(s) && SortedBy(s.pool, s.delayed)
    && Used(s, t) && s.pool[t].wakeTime == w
    && (t in s.delayed <==> s.tick < w)
    && (t !in s.delayed ==> CanRun(s, t))
  }

  predicate CanRun(s: Sched, t: Slot) {
    s.pool[t].state == READY || s.pool[t].state == RUNNING
  }

  lemma AwakenWakes(s: Sched, t: Slot, w: nat, tick: nat, a: Sched)
    requires Wakes(s, t, w) && s.tick <= tick && a == Awaken(s, tick)
    ensures Wakes(a, t, w) && a.tick == tick
  {
    var s0 := s.(tick := tick);
    AwakenInv(s, tick);
    ProcessKeepsSorted(s0);
    ProcessKeepsIds(s0, t);
    if t in s.delayed {
      ProcessWakesDue(s0, t);
    } else {
      ProcessLeavesOthers(s0, t);
    }
  }

  lemma {:induction false} ProcessKeepsIds(s: Sched, t: Slot)
    ensures ProcessDelayed(s).pool[t].id == s.pool[t].id
  {
    ProcessPool(s);
  }

  lemma {:induction false} ProcessLeavesOthers(s: Sched, t: Slot)
    requires t !in s.delayed
    ensures t !in ProcessDelayed(s).delayed && ProcessDelayed(s).pool[t] == s.pool[t]
  {
    ProcessPool(s);
  }

  /** What the waking of t depends on: the list, the times of the tasks on it, and t itself. */
  ghost predicate LeavesWaking(s: Sched, r: Sched, t: Slot) {
    && r.delayed == s.delayed && r.tick == s.tick
    && (forall u: Slot :: u in s.delayed || u == t ==> r.pool[u].wakeTime == s.pool[u].wakeTime)
    && r.pool[t].id == s.pool[t].id
    && (CanRun(s, t) ==> CanRun(r, t))
  }

  lemma StillWakes(s: Sched, r: Sched, t: Slot, w: nat)
    requires Wakes(s, t, w) && Inv(r) && LeavesWaking(s, r, t)
    ensures Wakes(r, t, w)
  {
    assert forall i :: 0 <= i < |s.delayed| ==> s.delayed[i] in s.delayed;
  }

  lemma ScheduleLeaves(s: Sched, r: Sched, t: Slot)
    requires r == Schedule(s)
    ensures LeavesWaking(s, r, t)
  {
  }

  lemma YieldLeaves(s: Sched, r: Sched, t: Slot)
    requires r == Yield(s)
    ensures LeavesWaking(s, r, t)
  {
    if s.running {
      ScheduleLeaves(Release(s), r, t);
    }
  }

  lemma PreemptLeaves(s: Sched, r: Sched, t: Slot)
    requires r == Preempt(s)
    ensures LeavesWaking(s, r, t)
  {
    YieldLeaves(s, Yield(s), t);
  }

  lemma RetireLeaves(s: Sched, u: Slot, st: TaskState, r: Sched, t: Slot)
    requires u != t && r == YieldIfCurrent(Retire(s, u, st), u)
    ensures LeavesWaking(s, r, t)
  {
    YieldLeaves(Retire(s, u, st), Yield(Retire(s, u, st)), t);
  }

  lemma DelayLeaves(s: Sched, ticks: nat, r: Sched, t: Slot)
    requires s.currentTask.To? ==> s.currentTask.slot != t && s.currentTask.slot !in s.delayed
    requires r == Delay(s, ticks)
    ensures LeavesWaking(s, r, t)
  {
    if s.currentTask.To? && ticks > 0 {
      var b := Blocked(s, s.currentTask.slot, (s.tick + ticks) % U32);
      DelayIs(s, ticks, b);
      YieldLeaves(b, r, t);
    }
  }

  lemma CreateLeaves(s: Sched, priority: nat, r: Sched, t: Slot)
    requires Inv(s) && Used(s, t) && s.pool[t].state != DELETED && r == Create(s, priority).0
    ensures LeavesWaking(s, r, t)
  {
    FreeSlotMeaning(s.pool, 0);
  }

  lemma ResumeLeaves(s: Sched, id: nat, r: Sched, t: Slot)
    requires Inv(s) && r == Resume(s, id).0
    ensures LeavesWaking(s, r, t)
  {
    TaskSlotMeaning(s.pool, id, 0);
  }

  /** The call does not take t or a task on the delayed list out of circulation, and does not wrap
      the clock. */
  predicate Spares(s: Sched, c: Call, t: Slot) {
    && Allowed(s, c)
    && match c
       case CallDelete(id) => TaskSlot(s.pool, id, 0) != To(t)
       case CallSuspend(id) => TaskSlot(s.pool, id, 0) != To(t)
       case CallDelay(_) => s.currentTask.To? ==> s.currentTask.slot != t && s.currentTask.slot !in s.delayed
       case CallTick => s.tick + 1 < U32
       case _ => true
  }

  lemma TickWakes(s: Sched, t: Slot, w: nat)
    requires Wakes(s, t, w) && s.tick + 1 < U32
    ensures Wakes(Tick(s), t, w) && Tick(s).tick == s.tick + 1
  {
    var a := Awaken(s, (s.tick + 1) % U32);
    AwakenWakes(s, t, w, s.tick + 1, a);
    PreemptInv(a);
    PreemptLeaves(a, Preempt(a), t);
    StillWakes(a, Preempt(a), t, w);
    TickIs(s, a);
  }

  lemma StepLeaves(s: Sched, c: Call, r: Sched, t: Slot)
    requires Inv(s) && Spares(s, c, t) && c != CallTick && r == Step(s, c)
    requires Used(s, t) && s.pool[t].state != DELETED
    ensures LeavesWaking(s, r, t)
  {
    match c
    case CallCreate(priority) => CreateLeaves(s, priority, r, t);
    case CallDelete(id) =>
      if TaskSlot(s.pool, id, 0).To? {
        RetireLeaves(s, TaskSlot(s.pool, id, 0).slot, DELETED, r, t);
      }
    case CallSuspend(id) =>
      if TaskSlot(s.pool, id, 0).To? {
        RetireLeaves(s, TaskSlot(s.pool, id, 0).slot, SUSPENDED, r, t);
      }
    case CallResume(id) => ResumeLeaves(s, id, r, t);
    case CallDelay(ticks) => DelayLeaves(s, ticks, r, t);
    case CallYield => YieldLeaves(s, r, t);
    case CallStart => ScheduleLeaves(s.(running := true), r, t);
  }

  lemma StepWakes(s: Sched, c: Call, t: Slot, w: nat)
    requires Wakes(s, t, w) && Spares(s, c, t)
    ensures Wakes(Step(s, c), t, w) && Step(s, c).tick == s.tick + TicksOf(c)
  {
    if c == CallTick {
      TickWakes(s, t, w);
    } else {
      StepInv(s, c);
      StepLeaves(s, c, Step(s, c), t);
      StillWakes(s, Step(s, c), t, w);
    }
  }

  function TicksOf(c: Call): nat {
    if c == CallTick then 1 else 0
  }

  /** How many ticks are among the calls. */
  function Ticks(calls: seq<Call>): nat {
    if calls == [] then 0 else TicksOf(calls[0]) + Ticks(calls[1..])
  }

  /** Every call of the run is such a one. */
  predicate SparesAll(s: Sched, calls: seq<Call>, t: Slot)
    decreases |calls|
  {
    calls != [] ==> Spares(s, calls[0], t) && SparesAll(Step(s, calls[0]), calls[1..], t)
  }

  /** A task put on the list with a future wake time leaves it at precisely that tick and can run
      from then on, whatever is created, resumed, yielded, or done to other tasks meanwhile. */
  lemma {:induction false} WakesOnTime(s: Sched, calls: seq<Call>, t: Slot, w: nat)
    requires Wakes(s, t, w) && SparesAll(s, calls, t)
    ensures Wakes(Run(s, calls), t, w) && Run(s, calls).tick == s.tick + Ticks(calls)
    decreases |calls|
  {
    if calls != [] {
      StepWakes(s, calls[0], t, w);
      WakesOnTime(Step(s, calls[0]), calls[1..], t, w);
    }
  }

  /** add_to_delayed_list puts a blocked task under that regime, and keeps the others under it. */
  lemma DelayedTaskWakes(s: Sched, t: Slot)
    requires Inv(s) && SortedBy(s.pool, s.delayed)
    requires Used(s, t) && s.pool[t].state == BLOCKED && t !in s.delayed && s.tick < s.pool[t].wakeTime
    ensures Wakes(AddDelayed(s, t), t, s.pool[t].wakeTime)
    ensures forall u: Slot, w :: u != t && Wakes(s, u, w) ==> Wakes(AddDelayed(s, t), u, w)
  {
    AddDelayedInv(s, t);
    InsertSorted(s.pool, s.delayed, t);
    InsertKeeps(s.pool, s.delayed, t);
  }
}
