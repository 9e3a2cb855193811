/** Task control blocks in task_pool, threaded into lists by their next pointers. */
module SchedLinks {
  import opened SchedModel

  /** tcb_t without name and stack. */
  datatype Tcb = Tcb(task: Task, next: Ref)

  type TcbPool = s: seq<Tcb> | |s| == MAX_TASKS witness seq(MAX_TASKS, _ => Tcb(UNUSED, Null))

  function Tasks(pool: TcbPool): (tasks: Pool)
    ensures forall t: Slot :: tasks[t] == pool[t].task
  {
    seq(MAX_TASKS, i requires 0 <= i < MAX_TASKS => pool[i].task)
  }

  /** The pointer to the k-th element of a list, null at its end. */
  function Nth(q: seq<Slot>, k: nat): Ref {
    if k < |q| then To(q[k]) else Null
  }

  ghost predicate LinkOk(pool: TcbPool, q: seq<Slot>, k: nat)
    requires k < |q|
  {
    pool[q[k]].next == Nth(q, k + 1)
  }

  /** Following next from head visits exactly q and ends. */
  ghost predicate Linked(pool: TcbPool, head: Ref, q: seq<Slot>) {
    && head == Nth(q, 0)
    && forall k :: 0 <= k < |q| ==> LinkOk(pool, q, k)
  }

  /** The stored list of level p: acyclic, only tasks of that level, none that is delayed. */
  ghost predicate ListOk(pool: TcbPool, head: Ref, q: seq<Slot>, p: Level, delayed: seq<Slot>) {
    && Linked(pool, head, q)
    && Distinct(q)
    && forall t: Slot :: t in q ==> pool[t].task.priority == p && t !in delayed
  }

  /** A list does not notice what happens to blocks that are not on it. */
  lemma LinkedFrame(pool: TcbPool, pool': TcbPool, head: Ref, q: seq<Slot>)
    requires Linked(pool, head, q)
    requires forall t: Slot :: t in q ==> pool'[t].next == pool[t].next
    ensures Linked(pool', head, q)
  {
    forall k | 0 <= k < |q| ensures LinkOk(pool', q, k) {
      assert LinkOk(pool, q, k);
      assert q[k] in q;
    }
  }

  lemma ListFrame(pool: TcbPool, pool': TcbPool, head: Ref, q: seq<Slot>, p: Level, delayed: seq<Slot>,
                  delayed': seq<Slot>)
    requires ListOk(pool, head, q, p, delayed)
    requires forall t: Slot :: t in q ==> pool'[t].next == pool[t].next && pool'[t].task.priority == p && t !in delayed'
    ensures ListOk(pool', head, q, p, delayed')
  {
    LinkedFrame(pool, pool', head, q);
  }

  /** Hanging t, whose next pointer is null, onto the last block. */
  lemma Appended(pool: TcbPool, pool': TcbPool, head: Ref, q: seq<Slot>, t: Slot)
    requires Linked(pool, head, q) && Distinct(q) && t !in q && q != []
    requires pool'[t].next == Null && pool'[q[|q| - 1]].next == To(t)
    requires forall u: Slot :: u in q && u != q[|q| - 1] ==> pool'[u].next == pool[u].next
    ensures Linked(pool', head, q + [t]) && Distinct(q + [t])
  {
    forall k | 0 <= k <= |q| ensures LinkOk(pool', q + [t], k) {
      if k < |q| {
        assert LinkOk(pool, q, k);
        assert q[k] in q;
      }
    }
  }

  lemma Single(pool: TcbPool, t: Slot)
    requires pool[t].next == Null
    ensures Linked(pool, To(t), [t])
  {
  }

  /** Bypassing the k-th block. */
  lemma Bypassed(pool: TcbPool, pool': TcbPool, head: Ref, head': Ref, q: seq<Slot>, k: nat)
    requires Linked(pool, head, q) && Distinct(q) && k < |q|
    requires if k == 0 then head' == pool[q[0]].next else head' == head && pool'[q[k - 1]].next == pool[q[k]].next
    requires forall u: Slot :: u in q && u != q[k] && (k > 0 ==> u != q[k - 1]) ==> pool'[u].next == pool[u].next
    ensures Linked(pool', head', q[..k] + q[k + 1..])
  {
    var r := q[..k] + q[k + 1..];
    assert LinkOk(pool, q, k);
    forall i | 0 <= i < |r| ensures LinkOk(pool', r, i) {
      var j := if i < k then i else i + 1;
      assert LinkOk(pool, q, j);
      assert r[i] == q[j] && q[j] in q;
    }
  }

  /** Taking the first block off. */
  lemma FirstTaken(pool: TcbPool, pool': TcbPool, head: Ref, q: seq<Slot>)
    requires Linked(pool, head, q) && Distinct(q) && q != []
    requires forall u: Slot :: u != q[0] ==> pool'[u].next == pool[u].next
    ensures Linked(pool', pool[q[0]].next, q[1..]) && Distinct(q[1..])
    ensures q[0] !in q[1..] && forall u: Slot :: u in q <==> u == q[0] || u in q[1..]
  {
    assert LinkOk(pool, q, 0);
    forall k | 0 <= k < |q| - 1 ensures LinkOk(pool', q[1..], k) {
      assert LinkOk(pool, q, k + 1);
    }
  }

  lemma {:induction false} WithoutAt(q: seq<Slot>, t: Slot, k: nat)
    requires k < |q| && q[k] == t && t !in q[..k]
    ensures Without(q, t) == q[..k] + q[k + 1..]
  {
    if k > 0 {
      assert q[0] == q[..k][0];
      assert q[1..][..k - 1] == q[..k][1..];
      WithoutAt(q[1..], t, k - 1);
      assert q[..k] + q[k + 1..] == [q[0]] + (q[1..][..k - 1] + q[1..][k..]);
    }
  }

  lemma {:induction false} WithoutNone(q: seq<Slot>, t: Slot)
    requires t !in q
    ensures Without(q, t) == q
  {
    if q != [] {
      WithoutNone(q[1..], t);
    }
  }

  /** Splicing t in behind the first k blocks. */
  lemma Spliced(pool: TcbPool, pool': TcbPool, head: Ref, head': Ref, q: seq<Slot>, t: Slot, k: nat)
    requires Linked(pool, head, q) && Distinct(q) && t !in q && k <= |q|
    requires pool'[t].next == Nth(q, k)
    requires if k == 0 then head' == To(t) else head' == head && pool'[q[k - 1]].next == To(t)
    requires forall u: Slot :: u in q && (k > 0 ==> u != q[k - 1]) ==> pool'[u].next == pool[u].next
    ensures Linked(pool', head', q[..k] + [t] + q[k..]) && Distinct(q[..k] + [t] + q[k..])
  {
    var r := q[..k] + [t] + q[k..];
    forall i | 0 <= i < |r| ensures LinkOk(pool', r, i) {
      if i != k {
        var j := if i < k then i else i - 1;
        assert LinkOk(pool, q, j);
        assert r[i] == q[j] && q[j] in q;
      }
    }
  }

  /** The place the walk of add_to_delayed_list finds is the one that Insert takes. */
  lemma {:induction false} InsertAt(pool: Pool, q: seq<Slot>, t: Slot, k: nat)
    requires k <= |q| && (k < |q| ==> pool[t].wakeTime < pool[q[k]].wakeTime)
    requires forall i :: 0 <= i < k ==> pool[q[i]].wakeTime <= pool[t].wakeTime
    ensures Insert(pool, q, t) == q[..k] + [t] + q[k..]
  {
    if k == 0 {
      assert q[..0] + [t] + q[0..] == [t] + q;
    } else {
      InsertAt(pool, q[1..], t, k - 1);
      assert q[..k] + [t] + q[k..] == [q[0]] + (q[1..][..k - 1] + [t] + q[1..][k - 1..]);
    }
  }
}
