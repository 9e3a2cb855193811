/** Message queues (src/ipc/message_queue.c): fixed-size messages in slots of one heap block. */
module MessageQueue {
  import opened Blocks
  import opened Heap
  import opened HeapCalls
  import opened HeapClients
  import opened HeapMemory
  import opened RtosTypes
  import opened Slots

  /** The bytes of msg lie at p. */
  ghost predicate HoldsMessage(m: Memory, p: int, msg: seq<bv8>) {
    && 0 <= p && p + |msg| <= |m|
    && forall o :: p <= o < p + |msg| ==> m[o] == Byte(msg[o - p])
  }

  function SlotAddress(buffer: int, i: nat, msgSize: nat): int {
    buffer + i * msgSize
  }

  /** The messages lie in consecutive slots of the ring, from tail on. */
  ghost predicate HoldsQueue(m: Memory, buffer: int, msgSize: nat, maxMsgs: nat, tail: nat, queue: seq<seq<bv8>>) {
    && tail < maxMsgs && |queue| <= maxMsgs
    && forall k :: 0 <= k < |queue| ==>
                     && |queue[k]| == msgSize
                     && HoldsMessage(m, SlotAddress(buffer, RingIndex(tail, k, maxMsgs), msgSize), queue[k])
  }

  /** Filling the slot after the last message appends it. */
  lemma SendKeepsQueue(m: Memory, m': Memory, buffer: int, msgSize: nat, maxMsgs: nat, tail: nat,
                       queue: seq<seq<bv8>>, msg: seq<bv8>)
    requires HoldsQueue(m, buffer, msgSize, maxMsgs, tail, queue) && |queue| < maxMsgs && |msg| == msgSize
    requires var p := SlotAddress(buffer, RingIndex(tail, |queue|, maxMsgs), msgSize);
             SameOutside(m, m', p, p + msgSize) && HoldsMessage(m', p, msg)
    ensures HoldsQueue(m', buffer, msgSize, maxMsgs, tail, queue + [msg])
  {
    var n := |queue|;
    var p := SlotAddress(buffer, RingIndex(tail, n, maxMsgs), msgSize);
    forall k | 0 <= k < n
      ensures HoldsMessage(m', SlotAddress(buffer, RingIndex(tail, k, maxMsgs), msgSize), queue[k])
    {
      RingInjective(tail, k, n, maxMsgs);
      SlotsApart(RingIndex(tail, k, maxMsgs), RingIndex(tail, n, maxMsgs), msgSize);
      var q := SlotAddress(buffer, RingIndex(tail, k, maxMsgs), msgSize);
      assert HoldsMessage(m, q, queue[k]);
    }
  }

  lemma ReceiveKeepsQueue(m: Memory, buffer: int, msgSize: nat, maxMsgs: nat, tail: nat, queue: seq<seq<bv8>>)
    requires HoldsQueue(m, buffer, msgSize, maxMsgs, tail, queue) && queue != []
    ensures HoldsQueue(m, buffer, msgSize, maxMsgs, RingIndex(tail, 1, maxMsgs), queue[1..])
  {
    forall k | 0 <= k < |queue| - 1
      ensures var i := RingIndex(RingIndex(tail, 1, maxMsgs), k, maxMsgs);
              HoldsMessage(m, SlotAddress(buffer, i, msgSize), queue[1..][k])
    {
      RingStep(tail, k, maxMsgs);
      assert HoldsMessage(m, SlotAddress(buffer, RingIndex(tail, k + 1, maxMsgs), msgSize), queue[k + 1]);
    }
  }

  lemma SameMessage(m: Memory, p: int, a: seq<bv8>, b: seq<bv8>)
    requires HoldsMessage(m, p, a) && HoldsMessage(m, p, b) && |a| == |b|
    ensures a == b
  {
    forall i | 0 <= i < |a| ensures a[i] == b[i] {
      assert m[p + i] == Byte(a[i]);
    }
  }

  // -------------------------------------------------------------------------------------------
  // The bounded FIFO that a queue amounts to
  // -------------------------------------------------------------------------------------------

  /** What happens during a queue's life: a call of another user of the heap, or of its own users. */
  datatype QueueUse = Other(call: Foreign) | Send(msg: seq<bv8>) | Receive

  function OtherCalls(uses: seq<QueueUse>): seq<Foreign> {
    if uses == [] then []
    else (if uses[0].Other? then [uses[0].call] else []) + OtherCalls(uses[1..])
  }

  /** The messages in transit and those received. */
  datatype Fifo = Fifo(queue: seq<seq<bv8>>, out: seq<seq<bv8>>)

  function Played(f: Fifo, use: QueueUse, msgSize: nat, maxMsgs: nat): Fifo {
    match use
    case Other(_) => f
    case Send(msg) => if |msg| == msgSize && |f.queue| != maxMsgs then f.(queue := f.queue + [msg]) else f
    case Receive => if f.queue == [] then f else Fifo(f.queue[1..], f.out + [f.queue[0]])
  }

  function PlayedAll(f: Fifo, uses: seq<QueueUse>, msgSize: nat, maxMsgs: nat): Fifo {
    if uses == [] then f
    else Played(PlayedAll(f, uses[..|uses| - 1], msgSize, maxMsgs), uses[|uses| - 1], msgSize, maxMsgs)
  }

  lemma {:induction false} PlayedMore(f: Fifo, uses: seq<QueueUse>, k: nat, msgSize: nat, maxMsgs: nat)
    requires k < |uses|
    ensures PlayedAll(f, uses[..k + 1], msgSize, maxMsgs) ==
            Played(PlayedAll(f, uses[..k], msgSize, maxMsgs), uses[k], msgSize, maxMsgs)
  {
    assert uses[..k + 1][..k] == uses[..k];
  }

  /** The messages that are taken in, in their order. */
  function Accepted(f: Fifo, uses: seq<QueueUse>, msgSize: nat, maxMsgs: nat): seq<seq<bv8>> {
    if uses == [] then []
    else
      var init, last := uses[..|uses| - 1], uses[|uses| - 1];
      Accepted(f, init, msgSize, maxMsgs) +
      if last.Send? && |last.msg| == msgSize && |PlayedAll(f, init, msgSize, maxMsgs).queue| != maxMsgs
      then [last.msg] else []
  }

  /** First in, first out: what came out, followed by what is in transit, is what was taken in, and
      the queue never holds more than its capacity. */
  lemma {:induction false} FifoOrder(uses: seq<QueueUse>, msgSize: nat, maxMsgs: nat)
    ensures var f := PlayedAll(Fifo([], []), uses, msgSize, maxMsgs);
            && f.out + f.queue == Accepted(Fifo([], []), uses, msgSize, maxMsgs)
            && |f.queue| <= maxMsgs
  {
    if uses != [] {
      FifoOrder(uses[..|uses| - 1], msgSize, maxMsgs);
    }
  }

  class Queue {
    const heap: Allocator
    /** Where the control block itself was allocated. */
    var self: int
    var buffer: int
    var msgSize: nat
    var maxMsgs: nat
    var count: nat
    var head: nat
    var tail: nat
    /** The messages in transit, and all that ever went in and came out. */
    ghost var queue: seq<seq<bv8>>
    ghost var sent: seq<seq<bv8>>
    ghost var received: seq<seq<bv8>>

    ghost predicate Valid()
      reads this, heap, heap.mem
    {
      && heap.Valid()
      && heap.LivePtr(self) && heap.LivePtr(buffer) && self != buffer
      && msgSize > 0 && maxMsgs > 0
      && maxMsgs * msgSize <= heap.BlockOf(buffer).size
      && HoldsQueue(heap.mem[..], buffer, msgSize, maxMsgs, tail, queue)
      && count == |queue|
      && head == RingIndex(tail, count, maxMsgs)
      && sent == received + queue
    }

    /** The control block and the buffer are live. */
    ghost predicate Owns()
      reads this, heap
    {
      heap.LivePtr(self) && heap.LivePtr(buffer) && self != buffer
    }

    constructor (heap: Allocator, self: int, buffer: int, msgSize: nat, maxMsgs: nat)
      requires heap.Valid() && heap.LivePtr(self) && heap.LivePtr(buffer) && self != buffer
      requires msgSize > 0 && maxMsgs > 0
      ensures Valid() <==> maxMsgs * msgSize <= heap.BlockOf(buffer).size
      ensures queue == [] && sent == [] && received == []
      ensures this.heap == heap && this.self == self && this.buffer == buffer
      ensures this.msgSize == msgSize && this.maxMsgs == maxMsgs
    {
      this.heap := heap;
      this.self, this.buffer := self, buffer;
      this.msgSize, this.maxMsgs := msgSize, maxMsgs;
      count, head, tail := 0, 0, 0;
      queue, sent, received := [], [], [];
    }

    /** structSize is sizeof(message_queue_t). A queue that exists has room for a message, also if
        the product of the sizes wraps around the word size; but then its buffer is too small. */
    static method MqCreate(heap: Allocator, structSize: nat, msgSize: nat, maxMsgs: nat) returns (mq: Queue?)
      requires heap.Valid()
      modifies heap, heap.mem
      ensures heap.Valid() && heap.memoryInitialized == old(heap.memoryInitialized)
      ensures mq != null <==> heap.ServesBoth(old(heap.blocks), structSize, MulSize(maxMsgs, msgSize, heap.word))
      ensures mq == null ==> heap.blocks == old(heap.blocks)
      ensures mq != null ==>
                && fresh(mq) && mq.heap == heap && mq.Owns()
                && mq.queue == [] && mq.msgSize == msgSize > 0 && mq.maxMsgs == maxMsgs > 0
                && NewPair(heap, old(heap.blocks), mq.self, mq.buffer)
                && (mq.Valid() <==> maxMsgs * msgSize + 3 < heap.word)
      ensures SamePayloads(old(heap.mem[..]), heap.mem[..], Live(old(heap.blocks)), heap.h)
    {
      var self, buffer := MallocPair(heap, structSize, MulSize(maxMsgs, msgSize, heap.word));
      if buffer == NULL {
        return null;
      }
      heap.LivePtrMeaning(buffer);
      ProductFits(maxMsgs, msgSize, heap.word, heap.BlockOf(buffer).size);
      NonzeroProduct(maxMsgs, msgSize, heap.word);
      mq := new Queue(heap, self, buffer, msgSize, maxMsgs);
    }

    method MqSend(msg: seq<bv8>) returns (status: RtosStatus)
      requires Valid() && |msg| == msgSize
      modifies this`head, this`count, this`queue, this`sent, heap.mem
      ensures Valid() && msgSize == old(msgSize) && maxMsgs == old(maxMsgs)
      ensures self == old(self) && buffer == old(buffer) && received == old(received)
      ensures status == if |old(queue)| == maxMsgs then RTOS_ERROR_BUSY else RTOS_OK
      ensures status == RTOS_OK ==> queue == old(queue) + [msg]
      ensures status != RTOS_OK ==> queue == old(queue) && heap.mem[..] == old(heap.mem[..])
      ensures var p := SlotAddress(buffer, old(head), msgSize);
              SameOutside(old(heap.mem[..]), heap.mem[..], p, p + msgSize)
      ensures SamePayloads(old(heap.mem[..]), heap.mem[..], Live(heap.blocks) - {heap.BlockOf(buffer)}, heap.h)
    {
      LiveInHeap(heap.blocks, heap.h);
      if count >= maxMsgs {
        return RTOS_ERROR_BUSY;
      }
      PutIn(msg);
      head := (head + 1) % maxMsgs;
      count := count + 1;
      queue, sent := queue + [msg], sent + [msg];
      return RTOS_OK;
    }

    /** The copy into the slot at head. */
    method PutIn(msg: seq<bv8>)
      requires Valid() && |msg| == msgSize && count < maxMsgs
      modifies heap.mem
      ensures heap.Valid() && HoldsQueue(heap.mem[..], buffer, msgSize, maxMsgs, tail, queue + [msg])
      ensures (head + 1) % maxMsgs == RingIndex(tail, count + 1, maxMsgs)
      ensures var p := SlotAddress(buffer, head, msgSize);
              SameOutside(old(heap.mem[..]), heap.mem[..], p, p + msgSize)
      ensures SamePayloads(old(heap.mem[..]), heap.mem[..], Live(heap.blocks) - {heap.BlockOf(buffer)}, heap.h)
    {
      SlotInside(head, maxMsgs, msgSize);
      heap.CopyIn(buffer, head * msgSize, msg);
      SendKeepsQueue(old(heap.mem[..]), heap.mem[..], buffer, msgSize, maxMsgs, tail, queue, msg);
      RingNext(tail, count, maxMsgs);
    }

    method MqReceive() returns (status: RtosStatus, msg: seq<bv8>)
      requires Valid()
      modifies this`tail, this`count, this`queue, this`received
      ensures Valid() && msgSize == old(msgSize) && maxMsgs == old(maxMsgs)
      ensures self == old(self) && buffer == old(buffer) && sent == old(sent)
      ensures status == if old(queue) == [] then RTOS_ERROR_TIMEOUT else RTOS_OK
      ensures status == RTOS_OK ==> [msg] + queue == old(queue)
      ensures status != RTOS_OK ==> queue == old(queue)
    {
      msg := [];
      if count == 0 {
        return RTOS_ERROR_TIMEOUT, msg;
      }
      msg := TakeOut();
      TailMoves();
      tail := (tail + 1) % maxMsgs;
      count := count - 1;
      received, queue := received + [queue[0]], queue[1..];
      return RTOS_OK, msg;
    }

    /** With the tail one slot further the ring holds the rest of the queue. */
    lemma TailMoves()
      requires Valid() && count > 0
      ensures var t := (tail + 1) % maxMsgs;
              && HoldsQueue(heap.mem[..], buffer, msgSize, maxMsgs, t, queue[1..])
              && head == RingIndex(t, count - 1, maxMsgs)
    {
      RingNext(tail, 0, maxMsgs);
      RingStep(tail, count - 1, maxMsgs);
      ReceiveKeepsQueue(heap.mem[..], buffer, msgSize, maxMsgs, tail, queue);
    }

    /** The copy out of the slot at tail. */
    method TakeOut() returns (msg: seq<bv8>)
      requires Valid() && count > 0
      ensures msg == queue[0]
    {
      SlotInside(tail, maxMsgs, msgSize);
      assert HoldsMessage(heap.mem[..], SlotAddress(buffer, RingIndex(tail, 0, maxMsgs), msgSize), queue[0]);
      msg := heap.CopyOut(buffer, tail * msgSize, msgSize);
      SameMessage(heap.mem[..], buffer + tail * msgSize, msg, queue[0]);
    }

    method MqDestroy()
      requires heap.Valid() && Owns()
      modifies heap, heap.mem
      ensures heap.Valid() && heap.memoryInitialized == old(heap.memoryInitialized)
      ensures Live(heap.blocks) == Live(old(heap.blocks)) - {old(heap.BlockOf(buffer)), old(heap.BlockOf(self))}
      ensures SamePayloads(old(heap.mem[..]), heap.mem[..], Live(heap.blocks), heap.h)
    {
      ReleasePair(heap, buffer, self);
    }

    /** Whatever happened since bs: a queue whose blocks are all that is live beyond bs leaves the
        block list exactly as bs when it is destroyed. */
    method DestroyRestores(ghost bs: seq<Block>)
      requires heap.Valid() && heap.memoryInitialized && Wf(bs, heap.h)
      requires Owns() && NewPair(heap, bs, self, buffer)
      modifies heap, heap.mem
      ensures heap.Valid() && heap.blocks == bs
    {
      MqDestroy();
      heap.SameLive(bs);
    }

    /** One call of a user of the queue or of another user of the heap; out is what was received. */
    method UseOnce(use: QueueUse, ghost kept: set<Block>, held: seq<int>, ghost taken: seq<Block>, out: seq<seq<bv8>>)
        returns (held': seq<int>, ghost taken': seq<Block>, out': seq<seq<bv8>>)
      requires Valid() && heap.memoryInitialized && Holds(heap, kept, held, taken)
      requires heap.BlockOf(self) in kept && heap.BlockOf(buffer) in kept
      modifies this`head, this`tail, this`count, this`queue, this`sent, this`received, heap, heap.mem
      ensures Valid() && heap.memoryInitialized && Holds(heap, kept, held', taken')
      ensures heap.BlockOf(self) == old(heap.BlockOf(self)) && heap.BlockOf(buffer) == old(heap.BlockOf(buffer))
      ensures Fifo(queue, out') == Played(Fifo(old(queue), out), use, msgSize, maxMsgs)
    {
      held', taken', out' := held, taken, out;
      match use
      case Other(call) =>
        held', taken' := OthersStep(heap, call, kept, held, taken);
        Survives();
        StillOwns(kept);
      case Send(msg) =>
        if |msg| == msgSize {
          var status := MqSend(msg);
        }
      case Receive =>
        var status, msg := MqReceive();
        if status == RTOS_OK {
          out' := out + [msg];
        }
    }

    method UseAll(uses: seq<QueueUse>, ghost kept: set<Block>)
        returns (held: seq<int>, ghost taken: seq<Block>, out: seq<seq<bv8>>)
      requires Valid() && heap.memoryInitialized && kept == Live(heap.blocks)
      modifies this`head, this`tail, this`count, this`queue, this`sent, this`received, heap, heap.mem
      ensures Valid() && heap.memoryInitialized && Holds(heap, kept, held, taken)
      ensures heap.BlockOf(self) == old(heap.BlockOf(self)) && heap.BlockOf(buffer) == old(heap.BlockOf(buffer))
      ensures Fifo(queue, out) == PlayedAll(Fifo(old(queue), []), uses, msgSize, maxMsgs)
    {
      held, taken, out := [], [], [];
      ghost var f := Fifo(queue, []);
      for k := 0 to |uses|
        invariant Valid() && heap.memoryInitialized && Holds(heap, kept, held, taken)
        invariant heap.BlockOf(self) == old(heap.BlockOf(self)) && heap.BlockOf(buffer) == old(heap.BlockOf(buffer))
        invariant Fifo(queue, out) == PlayedAll(f, uses[..k], msgSize, maxMsgs)
      {
        held, taken, out := UseOnce(uses[k], kept, held, taken, out);
        PlayedMore(f, uses, k, msgSize, maxMsgs);
      }
      assert uses[..|uses|] == uses;
    }

    /** A queue's life: among any calls of other users of the heap its sends and receives give what a
        bounded FIFO gives, and when both they and the queue are gone the block list is what it was.
        A queue whose space wraps around the word size is not used, but the others go on. */
    static method Life(heap: Allocator, structSize: nat, msgSize: nat, maxMsgs: nat, uses: seq<QueueUse>)
        returns (created: bool, out: seq<seq<bv8>>)
      requires heap.Valid()
      modifies heap, heap.mem
      ensures heap.Valid() && heap.blocks == old(heap.blocks)
      ensures created && maxMsgs * msgSize + 3 < heap.word ==>
                out == PlayedAll(Fifo([], []), uses, msgSize, maxMsgs).out
    {
      ghost var bs := heap.blocks;
      created, out := false, [];
      var mq := MqCreate(heap, structSize, msgSize, maxMsgs);
      if mq != null {
        created := true;
        ghost var kept := Live(heap.blocks);
        var held;
        ghost var taken;
        label created:
        if maxMsgs * msgSize + 3 < heap.word {
          held, taken, out := mq.UseAll(uses, kept);
        } else {
          held, taken := OthersRun(heap, OtherCalls(uses));
          mq.StillOwns@created(kept);
        }
        label used:
        OthersLeave(heap, kept, held, taken);
        mq.StillOwns@used(kept);
        mq.DestroyRestores(bs);
      }
    }

    twostate lemma StillOwns(kept: set<Block>)
      requires old(Owns()) && heap.Valid() && unchanged(this) && kept <= Live(heap.blocks)
      requires old(heap.BlockOf(self)) in kept && old(heap.BlockOf(buffer)) in kept
      ensures Owns()
      ensures heap.BlockOf(self) == old(heap.BlockOf(self)) && heap.BlockOf(buffer) == old(heap.BlockOf(buffer))
    {
      heap.PtrOfLive(old(heap.BlockOf(self)));
      heap.PtrOfLive(old(heap.BlockOf(buffer)));
    }

    /** Whatever others do with the heap: a queue stays valid, with the same messages, while its two
        blocks stay live and the payload of its buffer is left alone. */
    twostate lemma Survives()
      requires old(Valid()) && heap.Valid() && unchanged(this)
      requires old(heap.BlockOf(self)) in Live(heap.blocks)
      requires var b := old(heap.BlockOf(buffer));
               b in Live(heap.blocks) && SamePayloads(old(heap.mem[..]), heap.mem[..], {b}, heap.h)
      ensures Valid()
    {
      ghost var b := old(heap.BlockOf(buffer));
      heap.PtrOfLive(old(heap.BlockOf(self)));
      heap.PtrOfLive(b);
      assert SamePayload(old(heap.mem[..]), heap.mem[..], b, heap.h);
      QueueSurvives(old(heap.mem[..]), b);
    }

    lemma QueueSurvives(m: Memory, b: Block)
      requires b in Live(heap.blocks) && heap.Valid() && buffer == Payload(b, heap.h) && maxMsgs * msgSize <= b.size
      requires HoldsQueue(m, buffer, msgSize, maxMsgs, tail, queue)
      requires SamePayloads(m, heap.mem[..], {b}, heap.h)
      ensures HoldsQueue(heap.mem[..], buffer, msgSize, maxMsgs, tail, queue)
    {
      assert SamePayload(m, heap.mem[..], b, heap.h);
      forall k | 0 <= k < |queue|
        ensures HoldsMessage(heap.mem[..], SlotAddress(buffer, RingIndex(tail, k, maxMsgs), msgSize), queue[k])
      {
        SlotInside(RingIndex(tail, k, maxMsgs), maxMsgs, msgSize);
        assert HoldsMessage(m, SlotAddress(buffer, RingIndex(tail, k, maxMsgs), msgSize), queue[k]);
      }
    }
  }
}
