/** The UART driver's ring buffers and the calls built on them (src/drivers/uart_driver.c). */
module Uart {
  import opened Blocks
  import opened Heap
  import opened HeapCalls
  import opened HeapClients
  import opened HeapMemory
  import opened RtosTypes
  import opened Slots

  const MAX_UART_INSTANCES: nat := 4

  /** The queued bytes lie in consecutive ring positions, from tail on. */
  ghost predicate HoldsRing(m: Memory, buffer: int, size: nat, tail: nat, queue: seq<bv8>) {
    && 0 <= buffer && buffer + size <= |m|
    && tail < size && |queue| <= size
    && forall k :: 0 <= k < |queue| ==> m[buffer + RingIndex(tail, k, size)] == Byte(queue[k])
  }

  lemma RingSurvives(m: Memory, m': Memory, buffer: int, size: nat, tail: nat, queue: seq<bv8>, b: Block, h: HeaderSize)
    requires HoldsRing(m, buffer, size, tail, queue)
    requires buffer == Payload(b, h) && size <= b.size && End(b, h) <= |m| == |m'| && SamePayload(m, m', b, h)
    ensures HoldsRing(m', buffer, size, tail, queue)
  {
  }

  lemma OneByteMore(queue: seq<bv8>, data: seq<bv8>, n: nat)
    requires n < |data|
    ensures queue + data[..n] + [data[n]] == queue + data[..n + 1]
  {
  }

  /** circular_buffer_t */
  class CircularBuffer {
    const heap: Allocator
    var buffer: int
    var size: nat
    var head: nat
    var tail: nat
    var count: nat
    ghost var queue: seq<bv8>

    constructor (heap: Allocator)
      ensures this.heap == heap && buffer == NULL && queue == []
    {
      this.heap := heap;
      buffer, size, head, tail, count := NULL, 0, 0, 0, 0;
      queue := [];
    }

    ghost predicate Valid()
      reads this, heap, heap.mem
    {
      && heap.Valid() && heap.LivePtr(buffer)
      && 0 < size <= heap.BlockOf(buffer).size
      && HoldsRing(heap.mem[..], buffer, size, tail, queue)
      && count == |queue|
      && head == RingIndex(tail, count, size)
    }

    /** Whatever others do with the heap: a ring stays valid, with the same bytes, while its block
        stays live and the payload is left alone. */
    twostate lemma Survives()
      requires old(Valid()) && heap.Valid() && unchanged(this)
      requires var b := old(heap.BlockOf(buffer));
               b in Live(heap.blocks) && SamePayloads(old(heap.mem[..]), heap.mem[..], {b}, heap.h)
      ensures Valid() && heap.BlockOf(buffer) == old(heap.BlockOf(buffer))
    {
      ghost var b := old(heap.BlockOf(buffer));
      heap.PtrOfLive(b);
      heap.LivePtrMeaning(buffer);
      assert SamePayload(old(heap.mem[..]), heap.mem[..], b, heap.h);
      RingSurvives(old(heap.mem[..]), heap.mem[..], buffer, size, tail, queue, b, heap.h);
    }

    method Init(size: nat)
      requires heap.Valid() && size + 3 < heap.word
      modifies this, heap, heap.mem
      ensures heap.Valid() && heap.memoryInitialized == old(heap.memoryInitialized)
      ensures buffer != NULL <==> heap.Serves(old(heap.blocks), size)
      ensures heap.blocks == if buffer == NULL then old(heap.blocks)
                             else HeapCalls.Malloc(old(heap.blocks), AlignSize(size, heap.word), heap.h)
      ensures buffer != NULL ==>
                && Valid() && queue == [] && this.size == size
                && heap.NewBlock(old(heap.blocks), buffer, AlignSize(size, heap.word))
      ensures SamePayloads(old(heap.mem[..]), heap.mem[..], Live(old(heap.blocks)), heap.h)
    {
      AlignSizeMeaning(size, heap.word);
      heap.ChoiceServes(size);
      buffer := heap.RtosMalloc(size);
      this.size := size;
      head, tail, count := 0, 0, 0;
      queue := [];
      if buffer != NULL {
        heap.LivePtrMeaning(buffer);
      }
    }

    method Deinit()
      requires heap.Valid() && (buffer == NULL || heap.LivePtr(buffer))
      modifies this, heap, heap.mem
      ensures heap.Valid() && heap.memoryInitialized == old(heap.memoryInitialized) && buffer == NULL
      ensures Live(heap.blocks) == Live(old(heap.blocks)) -
                if old(buffer) == NULL then {} else {old(heap.BlockOf(buffer))}
      ensures SamePayloads(old(heap.mem[..]), heap.mem[..], Live(heap.blocks), heap.h)
    {
      if buffer != NULL {
        heap.LivePtrMeaning(buffer);
        heap.RtosFree(buffer);
        buffer := NULL;
      } else {
        heap.LiveInHeapIfAny();
      }
    }

    method Put(data: bv8) returns (ok: bool)
      requires Valid()
      modifies this`head, this`count, this`queue, heap.mem
      ensures Valid()
      ensures ok <==> |old(queue)| < size
      ensures queue == if ok then old(queue) + [data] else old(queue)
      ensures !ok ==> heap.mem[..] == old(heap.mem[..])
      ensures SamePayloads(old(heap.mem[..]), heap.mem[..], Live(heap.blocks) - {heap.BlockOf(buffer)}, heap.h)
    {
      LiveInHeap(heap.blocks, heap.h);
      if count >= size {
        return false;
      }
      heap.StoreByte(buffer, head, data);
      RingNext(tail, count, size);
      head := (head + 1) % size;
      count := count + 1;
      queue := queue + [data];
      return true;
    }

    method Get() returns (ok: bool, data: bv8)
      requires Valid()
      modifies this`tail, this`count, this`queue
      ensures Valid()
      ensures ok <==> old(queue) != []
      ensures ok ==> [data] + queue == old(queue)
      ensures !ok ==> queue == old(queue)
    {
      data := 0;
      if count == 0 {
        return false, data;
      }
      assert heap.mem[buffer + RingIndex(tail, 0, size)] == Byte(queue[0]);
      data := heap.mem[buffer + tail].b;
      TailMoves();
      tail := (tail + 1) % size;
      count := count - 1;
      queue := queue[1..];
      return true, data;
    }

    /** With the tail one place further the ring holds the rest of the queue. */
    lemma TailMoves()
      requires Valid() && count > 0
      ensures var t := (tail + 1) % size;
              HoldsRing(heap.mem[..], buffer, size, t, queue[1..]) && head == RingIndex(t, count - 1, size)
    {
      PopKeepsRing(heap.mem[..]);
      RingNext(tail, 0, size);
      RingStep(tail, count - 1, size);
    }

    lemma PopKeepsRing(m: Memory)
      requires HoldsRing(m, buffer, size, tail, queue) && queue != []
      ensures HoldsRing(m, buffer, size, RingIndex(tail, 1, size), queue[1..])
    {
      forall k | 0 <= k < |queue| - 1
        ensures m[buffer + RingIndex(RingIndex(tail, 1, size), k, size)] == Byte(queue[1..][k])
      {
        RingStep(tail, k, size);
      }
    }

    method Flush()
      requires Valid()
      modifies this`head, this`tail, this`count, this`queue
      ensures Valid() && queue == []
    {
      head, tail, count := 0, 0, 0;
      queue := [];
    }
  }

  // -------------------------------------------------------------------------------------------
  // What the calls of an instance amount to
  // -------------------------------------------------------------------------------------------

  /** What happens during an instance's life: a call of another user of the heap, or of its own. */
  datatype UartUse = Other(call: Foreign) | Write(data: seq<bv8>) | Read(len: nat) | FlushBoth

  datatype UartResult = UartResult(status: RtosStatus, bytesRead: nat)

  /** The bytes given to uart_write since the last uart_flush. */
  function WrittenAfter(written: seq<bv8>, use: UartUse): seq<bv8> {
    match use
    case Write(data) => written + data
    case FlushBoth => []
    case _ => written
  }

  function Written(uses: seq<UartUse>): seq<bv8> {
    if uses == [] then [] else WrittenAfter(Written(uses[..|uses| - 1]), uses[|uses| - 1])
  }

  function First(bytes: seq<bv8>, n: nat): seq<bv8> {
    bytes[..Min(|bytes|, n)]
  }

  /** Nothing is ever read, and a write succeeds exactly if all that was written since the last flush,
      this included, fits into the ring. */
  predicate AsExpected(use: UartUse, written: seq<bv8>, size: nat, result: UartResult) {
    match use
    case Other(_) => true
    case Write(data) =>
      result.status ==
      if data == [] then RTOS_ERROR_INVALID_PARAM else if |written| <= size then RTOS_OK else RTOS_ERROR_BUSY
    case Read(_) => result == UartResult(RTOS_OK, 0)
    case FlushBoth => result.status == RTOS_OK
  }

  ghost predicate AllAsExpected(uses: seq<UartUse>, size: nat, results: seq<UartResult>) {
    && |results| == |uses|
    && forall k :: 0 <= k < |uses| ==> AsExpected(uses[k], Written(uses[..k + 1]), size, results[k])
  }

  lemma OneMoreExpected(uses: seq<UartUse>, k: nat, size: nat, results: seq<UartResult>, result: UartResult)
    requires k < |uses| && AllAsExpected(uses[..k], size, results)
    requires AsExpected(uses[k], WrittenAfter(Written(uses[..k]), uses[k]), size, result)
    ensures Written(uses[..k + 1]) == WrittenAfter(Written(uses[..k]), uses[k])
    ensures AllAsExpected(uses[..k + 1], size, results + [result])
  {
    assert uses[..k + 1][..k] == uses[..k];
    forall i | 0 <= i < k + 1
      ensures AsExpected(uses[..k + 1][i], Written(uses[..k + 1][..i + 1]), size, (results + [result])[i])
    {
      if i < k {
        assert uses[..k + 1][..i + 1] == uses[..k][..i + 1];
        assert AsExpected(uses[..k][i], Written(uses[..k][..i + 1]), size, results[i]);
      } else {
        assert uses[..k + 1][..k + 1] == uses[..k + 1];
      }
    }
  }

  lemma FirstMore(written: seq<bv8>, data: seq<bv8>, n: nat)
    ensures var q := First(written, n);
            && q + data[..Min(|data|, n - |q|)] == First(written + data, n)
            && (data != [] ==> (|q| + |data| <= n <==> |written + data| <= n))
  {
  }

  /** struct uart_handle, without the fields that only configure hardware. */
  class UartHandle {
    const heap: Allocator
    const rx: CircularBuffer
    const tx: CircularBuffer
    var initialized: bool

    constructor (heap: Allocator)
      ensures this.heap == heap && fresh(rx) && fresh(tx) && rx != tx
      ensures rx.heap == heap && tx.heap == heap && !initialized
    {
      this.heap := heap;
      initialized := false;
      rx := new CircularBuffer(heap);
      tx := new CircularBuffer(heap);
    }

    ghost predicate Valid()
      reads this, rx, tx, heap, heap.mem, rx.heap, rx.heap.mem, tx.heap, tx.heap.mem
    {
      && heap.Valid()
      && rx != tx && rx.heap == heap && tx.heap == heap
      && (initialized ==> rx.Valid() && tx.Valid() && rx.buffer != tx.buffer)
    }

    /** uart_init on this instance, from the point where it is known not to be initialized. */
    method Open(rxSize: nat, txSize: nat) returns (ok: bool)
      requires Valid() && !initialized && rxSize < 0x1_0000 && txSize < 0x1_0000
      modifies this, rx, tx, heap, heap.mem
      ensures ok <==> heap.ServesBoth(old(heap.blocks), rxSize, txSize)
      ensures Valid() && ok == initialized && heap.memoryInitialized == old(heap.memoryInitialized)
      ensures !ok ==> heap.blocks == old(heap.blocks)
      ensures ok ==>
                && rxSize > 0 && txSize > 0
                && rx.queue == [] && tx.queue == [] && rx.size == rxSize && tx.size == txSize
                && Live(heap.blocks) == Live(old(heap.blocks)) + {heap.BlockOf(rx.buffer), heap.BlockOf(tx.buffer)}
                && heap.BlockOf(rx.buffer) !in Live(old(heap.blocks))
                && heap.BlockOf(tx.buffer) !in Live(old(heap.blocks))
      ensures SamePayloads(old(heap.mem[..]), heap.mem[..], Live(old(heap.blocks)), heap.h)
    {
      ghost var bs, live := heap.blocks, Live(heap.blocks);
      InitBoth(rxSize, txSize);
      if rx.buffer == NULL || tx.buffer == NULL {
        ghost var m := heap.mem[..];
        CloseBoth();
        SamePayloadsTrans(old(heap.mem[..]), m, heap.mem[..], live, Live(heap.blocks), live, heap.h);
        if heap.memoryInitialized {
          Canonical(heap.blocks, bs, heap.h);
        }
        return false;
      }
      initialized := true;
      return true;
    }

    /** circ_buf_init on both rings, whether or not they get their buffers. */
    method InitBoth(rxSize: nat, txSize: nat)
      requires Valid() && rxSize < 0x1_0000 && txSize < 0x1_0000
      modifies rx, tx, heap, heap.mem
      ensures heap.Valid() && heap.memoryInitialized == old(heap.memoryInitialized)
      ensures rx.buffer != NULL ==> rx.Valid() && rx.queue == [] && rx.size == rxSize
      ensures tx.buffer != NULL ==> tx.Valid() && tx.queue == [] && tx.size == txSize
      ensures tx.buffer != NULL ==> tx.buffer != rx.buffer
      ensures rx.buffer != NULL && tx.buffer != NULL <==> heap.ServesBoth(old(heap.blocks), rxSize, txSize)
      ensures Live(heap.blocks) == Live(old(heap.blocks)) + RingBlocks()
      ensures RingBlocks() !! Live(old(heap.blocks))
      ensures SamePayloads(old(heap.mem[..]), heap.mem[..], Live(old(heap.blocks)), heap.h)
    {
      ghost var live := Live(heap.blocks);
      rx.Init(rxSize);
      ghost var m, live' := heap.mem[..], Live(heap.blocks);
      label half:
      tx.Init(txSize);
      SamePayloadsTrans(old(heap.mem[..]), m, heap.mem[..], live, live', live, heap.h);
      if rx.buffer != NULL {
        rx.Survives@half();
      }
    }

    /** The blocks that the two rings hold. */
    ghost function RingBlocks(): set<Block>
      requires rx.buffer == NULL || heap.LivePtr(rx.buffer)
      requires tx.buffer == NULL || heap.LivePtr(tx.buffer)
      reads rx, tx, heap
    {
      (if rx.buffer == NULL then {} else {heap.BlockOf(rx.buffer)}) +
      (if tx.buffer == NULL then {} else {heap.BlockOf(tx.buffer)})
    }

    /** circ_buf_deinit on both rings; each skips a buffer it does not have. */
    method CloseBoth()
      requires heap.Valid() && rx != tx && rx.heap == heap && tx.heap == heap
      requires rx.buffer == NULL || heap.LivePtr(rx.buffer)
      requires tx.buffer == NULL || (heap.LivePtr(tx.buffer) && tx.buffer != rx.buffer)
      modifies rx, tx, heap, heap.mem
      ensures heap.Valid() && heap.memoryInitialized == old(heap.memoryInitialized)
      ensures rx.buffer == NULL && tx.buffer == NULL
      ensures Live(heap.blocks) == Live(old(heap.blocks)) - old(RingBlocks())
      ensures SamePayloads(old(heap.mem[..]), heap.mem[..], Live(heap.blocks), heap.h)
    {
      ghost var c := if tx.buffer == NULL then {} else {heap.BlockOf(tx.buffer)};
      rx.Deinit();
      ghost var m, live := heap.mem[..], Live(heap.blocks);
      if tx.buffer != NULL {
        ghost var b :| b in c;
        heap.PtrOfLive(b);
      }
      tx.Deinit();
      SamePayloadsTrans(old(heap.mem[..]), m, heap.mem[..], live, Live(heap.blocks), Live(heap.blocks), heap.h);
    }

    method UartDeinit() returns (status: RtosStatus)
      requires Valid()
      modifies this, rx, tx, heap, heap.mem
      ensures Valid() && !initialized && heap.memoryInitialized == old(heap.memoryInitialized)
      ensures status == if old(initialized) then RTOS_OK else RTOS_ERROR_INVALID_PARAM
      ensures status != RTOS_OK ==> heap.blocks == old(heap.blocks)
      ensures status == RTOS_OK ==>
                Live(heap.blocks) == Live(old(heap.blocks)) -
                  {old(heap.BlockOf(rx.buffer)), old(heap.BlockOf(tx.buffer))}
      ensures SamePayloads(old(heap.mem[..]), heap.mem[..], Live(heap.blocks), heap.h)
    {
      heap.LiveInHeapIfAny();
      if !initialized {
        return RTOS_ERROR_INVALID_PARAM;
      }
      CloseBoth();
      initialized := false;
      return RTOS_OK;
    }

    /** Whatever others do with the heap: an instance stays valid, with the same bytes in its rings,
        while the two ring blocks stay live and their payloads are left alone. */
    twostate lemma Survives()
      requires old(Valid()) && heap.Valid() && unchanged(this) && unchanged(rx) && unchanged(tx)
      requires initialized ==>
                 var blocks := {old(heap.BlockOf(rx.buffer)), old(heap.BlockOf(tx.buffer))};
                 blocks <= Live(heap.blocks) && SamePayloads(old(heap.mem[..]), heap.mem[..], blocks, heap.h)
      ensures Valid()
      ensures initialized ==>
                && heap.BlockOf(rx.buffer) == old(heap.BlockOf(rx.buffer))
                && heap.BlockOf(tx.buffer) == old(heap.BlockOf(tx.buffer))
    {
      if initialized {
        rx.Survives();
        tx.Survives();
      }
    }

    /** Whatever happened since bs: an instance whose ring blocks are all that is live beyond bs
        leaves the block list exactly as bs when it is shut down. */
    method DeinitRestores(ghost bs: seq<Block>)
      requires Valid() && initialized && heap.memoryInitialized && Wf(bs, heap.h)
      requires NewPair(heap, bs, rx.buffer, tx.buffer)
      modifies this, rx, tx, heap, heap.mem
      ensures Valid() && !initialized && heap.blocks == bs
    {
      var status := UartDeinit();
      heap.SameLive(bs);
    }

    /** One call of the instance's user or of another user of the heap; written is what was given to
        uart_write since the last flush. The receive ring is empty and stays so: nothing puts into it,
        and nothing takes from the transmit ring. */
    method UseOnce(use: UartUse, ghost written: seq<bv8>, ghost kept: set<Block>, held: seq<int>,
                   ghost taken: seq<Block>) returns (held': seq<int>, ghost taken': seq<Block>, result: UartResult)
      requires Valid() && initialized && heap.memoryInitialized && Holds(heap, kept, held, taken)
      requires heap.BlockOf(rx.buffer) in kept && heap.BlockOf(tx.buffer) in kept
      requires rx.queue == [] && tx.queue == First(written, tx.size)
      modifies rx`head, rx`tail, rx`count, rx`queue, tx`head, tx`tail, tx`count, tx`queue, heap, heap.mem
      ensures Valid() && heap.memoryInitialized && Holds(heap, kept, held', taken')
      ensures heap.BlockOf(rx.buffer) == old(heap.BlockOf(rx.buffer))
      ensures heap.BlockOf(tx.buffer) == old(heap.BlockOf(tx.buffer))
      ensures rx.queue == [] && tx.queue == First(WrittenAfter(written, use), tx.size)
      ensures AsExpected(use, WrittenAfter(written, use), tx.size, result)
    {
      held', taken', result := held, taken, UartResult(RTOS_OK, 0);
      match use
      case Other(call) =>
        held', taken' := OthersStep(heap, call, kept, held, taken);
        Survives();
      case Write(data) =>
        result := WriteOnce(data, written);
      case Read(len) =>
        result := ReadOnce(len);
      case FlushBoth =>
        var status := UartFlush();
        result := UartResult(status, 0);
    }

    method WriteOnce(data: seq<bv8>, ghost written: seq<bv8>) returns (result: UartResult)
      requires Valid() && initialized && tx.queue == First(written, tx.size)
      modifies tx`head, tx`count, tx`queue, heap.mem
      ensures Valid() && tx.queue == First(written + data, tx.size)
      ensures AsExpected(Write(data), written + data, tx.size, result)
    {
      var status := UartWrite(data);
      FirstMore(written, data, tx.size);
      result := UartResult(status, 0);
    }

    method ReadOnce(len: nat) returns (result: UartResult)
      requires Valid() && initialized && rx.queue == []
      modifies rx`tail, rx`count, rx`queue
      ensures Valid() && rx.queue == [] && result == UartResult(RTOS_OK, 0)
    {
      var bytes := new bv8[len];
      var status, bytesRead := UartRead(bytes, len);
      result := UartResult(status, bytesRead);
    }

    method UseAll(uses: seq<UartUse>, ghost kept: set<Block>)
        returns (held: seq<int>, ghost taken: seq<Block>, results: seq<UartResult>)
      requires Valid() && initialized && heap.memoryInitialized && kept == Live(heap.blocks)
      requires rx.queue == [] && tx.queue == []
      modifies rx`head, rx`tail, rx`count, rx`queue, tx`head, tx`tail, tx`count, tx`queue, heap, heap.mem
      ensures Valid() && heap.memoryInitialized && Holds(heap, kept, held, taken)
      ensures heap.BlockOf(rx.buffer) == old(heap.BlockOf(rx.buffer))
      ensures heap.BlockOf(tx.buffer) == old(heap.BlockOf(tx.buffer))
      ensures AllAsExpected(uses, tx.size, results)
    {
      held, taken, results := [], [], [];
      ghost var written := [];
      for k := 0 to |uses|
        invariant Valid() && heap.memoryInitialized && Holds(heap, kept, held, taken)
        invariant heap.BlockOf(rx.buffer) == old(heap.BlockOf(rx.buffer))
        invariant heap.BlockOf(tx.buffer) == old(heap.BlockOf(tx.buffer))
        invariant rx.queue == [] && tx.queue == First(written, tx.size)
        invariant written == Written(uses[..k]) && AllAsExpected(uses[..k], tx.size, results)
      {
        var result;
        held, taken, result := UseOnce(uses[k], written, kept, held, taken);
        OneMoreExpected(uses, k, tx.size, results, result);
        written := WrittenAfter(written, uses[k]);
        results := results + [result];
      }
      assert uses[..|uses|] == uses;
    }

    /** An instance's life: it stays valid through any sequence of its own calls and those of other
        users of the heap, and when both they and its rings are gone the block list is what it was.
        No read ever gets a byte, and between two flushes no more bytes are taken than the transmit
        ring holds. */
    method Life(rxSize: nat, txSize: nat, uses: seq<UartUse>) returns (ok: bool, results: seq<UartResult>)
      requires Valid() && !initialized && rxSize < 0x1_0000 && txSize < 0x1_0000
      modifies this, rx, tx, heap, heap.mem
      ensures Valid() && !initialized && heap.blocks == old(heap.blocks)
      ensures ok ==> AllAsExpected(uses, txSize, results)
    {
      ghost var bs := heap.blocks;
      results := [];
      ok := Open(rxSize, txSize);
      if ok {
        ghost var kept := Live(heap.blocks);
        var held;
        ghost var taken;
        held, taken, results := UseAll(uses, kept);
        label used:
        OthersLeave(heap, kept, held, taken);
        Survives@used();
        DeinitRestores(bs);
      }
    }

    /** Appends the longest prefix that fits; RTOS_OK says that this was all of it. */
    method UartWrite(data: seq<bv8>) returns (status: RtosStatus)
      requires Valid()
      modifies tx`head, tx`count, tx`queue, heap.mem
      ensures Valid()
      ensures !initialized || data == [] ==> status == RTOS_ERROR_INVALID_PARAM
      ensures initialized && data != [] ==>
                && status == (if |old(tx.queue)| + |data| <= tx.size then RTOS_OK else RTOS_ERROR_BUSY)
                && tx.queue == old(tx.queue) + data[..Min(|data|, tx.size - |old(tx.queue)|)]
      ensures status == RTOS_ERROR_INVALID_PARAM ==> tx.queue == old(tx.queue) && heap.mem[..] == old(heap.mem[..])
      ensures initialized ==>
                SamePayloads(old(heap.mem[..]), heap.mem[..], Live(heap.blocks) - {heap.BlockOf(tx.buffer)}, heap.h)
    {
      heap.LiveInHeapIfAny();
      if !initialized || |data| == 0 {
        return RTOS_ERROR_INVALID_PARAM;
      }
      var n := PutAll(data);
      assert data[..|data|] == data;
      return if n < |data| then RTOS_ERROR_BUSY else RTOS_OK;
    }

    /** The loop of uart_write: how many bytes went in before the ring was full. */
    method PutAll(data: seq<bv8>) returns (n: nat)
      requires Valid() && initialized
      modifies tx`head, tx`count, tx`queue, heap.mem
      ensures Valid()
      ensures n == Min(|data|, tx.size - |old(tx.queue)|)
      ensures tx.queue == old(tx.queue) + data[..n]
      ensures SamePayloads(old(heap.mem[..]), heap.mem[..], Live(heap.blocks) - {heap.BlockOf(tx.buffer)}, heap.h)
    {
      heap.LiveInHeapIfAny();
      ghost var rest, m0 := Live(heap.blocks) - {heap.BlockOf(tx.buffer)}, heap.mem[..];
      n := 0;
      while n < |data|
        invariant Valid() && |tx.queue| <= tx.size
        invariant n <= |data| && tx.queue == old(tx.queue) + data[..n]
        invariant SamePayloads(m0, heap.mem[..], rest, heap.h)
      {
        var ok := PutNext(data, n, old(tx.queue), m0, rest);
        if !ok {
          return;
        }
        n := n + 1;
      }
    }

    /** One turn of that loop, after n bytes. */
    method PutNext(data: seq<bv8>, n: nat, ghost queue: seq<bv8>, ghost m: Memory,
                   ghost rest: set<Block>) returns (ok: bool)
      requires Valid() && initialized && n < |data| && tx.queue == queue + data[..n]
      requires rest == Live(heap.blocks) - {heap.BlockOf(tx.buffer)} && SamePayloads(m, heap.mem[..], rest, heap.h)
      modifies tx`head, tx`count, tx`queue, heap.mem
      ensures Valid() && |tx.queue| <= tx.size
      ensures ok <==> |old(tx.queue)| < tx.size
      ensures tx.queue == queue + data[..if ok then n + 1 else n]
      ensures SamePayloads(m, heap.mem[..], rest, heap.h)
    {
      ok := PutTx(data[n]);
      SamePayloadsTrans(m, old(heap.mem[..]), heap.mem[..], rest, rest, rest, heap.h);
      OneByteMore(queue, data, n);
    }

    /** circ_buf_put on the transmit ring; the receive ring does not notice. */
    method PutTx(data: bv8) returns (ok: bool)
      requires Valid() && initialized
      modifies tx`head, tx`count, tx`queue, heap.mem
      ensures Valid()
      ensures ok <==> |old(tx.queue)| < tx.size
      ensures tx.queue == if ok then old(tx.queue) + [data] else old(tx.queue)
      ensures SamePayloads(old(heap.mem[..]), heap.mem[..], Live(heap.blocks) - {heap.BlockOf(tx.buffer)}, heap.h)
    {
      ok := tx.Put(data);
      RingSurvives(old(heap.mem[..]), heap.mem[..], rx.buffer, rx.size, rx.tail, rx.queue,
                   heap.BlockOf(rx.buffer), heap.h);
    }

    /** Takes the longest available prefix, at most len bytes. */
    method UartRead(buffer: array<bv8>, len: nat) returns (status: RtosStatus, bytesRead: nat)
      requires Valid() && len <= buffer.Length
      requires buffer as object != heap.mem  // the caller's buffer is an array of its own
      modifies rx`tail, rx`count, rx`queue, buffer
      ensures Valid()
      ensures status == if initialized then RTOS_OK else RTOS_ERROR_INVALID_PARAM
      ensures bytesRead <= len && forall k :: bytesRead <= k < buffer.Length ==> buffer[k] == old(buffer[k])
      ensures status == RTOS_OK ==>
                && bytesRead == Min(len, |old(rx.queue)|)
                && buffer[..bytesRead] == old(rx.queue)[..bytesRead]
                && rx.queue == old(rx.queue)[bytesRead..]
      ensures status != RTOS_OK ==> rx.queue == old(rx.queue) && bytesRead == 0
    {
      bytesRead := 0;
      if !initialized {
        return RTOS_ERROR_INVALID_PARAM, 0;
      }
      while bytesRead < len
        invariant Valid()
        invariant bytesRead <= len && forall k :: bytesRead <= k < buffer.Length ==> buffer[k] == old(buffer[k])
        invariant bytesRead <= |old(rx.queue)| && rx.queue == old(rx.queue)[bytesRead..]
        invariant buffer[..bytesRead] == old(rx.queue)[..bytesRead]
      {
        var ok := GetNext(buffer, bytesRead, old(rx.queue));
        if !ok {
          break;
        }
        bytesRead := bytesRead + 1;
      }
      return RTOS_OK, bytesRead;
    }

    /** One turn of that loop, after i bytes. */
    method GetNext(buffer: array<bv8>, i: nat, ghost queue: seq<bv8>) returns (ok: bool)
      requires Valid() && initialized && i < buffer.Length && buffer as object != heap.mem
      requires i <= |queue| && rx.queue == queue[i..] && buffer[..i] == queue[..i]
      modifies rx`tail, rx`count, rx`queue, buffer
      ensures Valid()
      ensures ok <==> i < |queue|
      ensures ok ==> rx.queue == queue[i + 1..] && buffer[..i + 1] == queue[..i + 1]
      ensures !ok ==> rx.queue == old(rx.queue) && buffer[..] == old(buffer[..])
      ensures forall k :: i < k < buffer.Length ==> buffer[k] == old(buffer[k])
    {
      ok := GetInto(buffer, i);
      if ok {
        NextRead(buffer[..], queue, i);
      }
    }

    lemma NextRead(bytes: seq<bv8>, queue: seq<bv8>, i: nat)
      requires i < |bytes| && i < |queue| && bytes[..i] == queue[..i] && bytes[i] == queue[i]
      ensures bytes[..i + 1] == queue[..i + 1] && queue[i..][1..] == queue[i + 1..]
    {
      assert bytes[..i + 1] == bytes[..i] + [bytes[i]];
    }

    /** circ_buf_get(&uart->rx_buffer, &buffer[i]) */
    method GetInto(buffer: array<bv8>, i: nat) returns (ok: bool)
      requires Valid() && initialized && i < buffer.Length && buffer as object != heap.mem
      modifies rx`tail, rx`count, rx`queue, buffer
      ensures Valid()
      ensures ok <==> old(rx.queue) != []
      ensures ok ==> buffer[..] == old(buffer[..])[i := old(rx.queue)[0]] && rx.queue == old(rx.queue)[1..]
      ensures !ok ==> buffer[..] == old(buffer[..]) && rx.queue == old(rx.queue)
    {
      var data;
      ok, data := rx.Get();
      if ok {
        buffer[i] := data;
      }
    }

    method UartAvailable() returns (n: nat)
      requires Valid()
      ensures n == if initialized then |rx.queue| else 0
    {
      if !initialized {
        return 0;
      }
      n := rx.count;
    }

    method UartFlush() returns (status: RtosStatus)
      requires Valid()
      modifies rx`head, rx`tail, rx`count, rx`queue, tx`head, tx`tail, tx`count, tx`queue
      ensures Valid()
      ensures status == if initialized then RTOS_OK else RTOS_ERROR_INVALID_PARAM
      ensures initialized ==> rx.queue == [] && tx.queue == []
    {
      if !initialized {
        return RTOS_ERROR_INVALID_PARAM;
      }
      rx.Flush();
      tx.Flush();
      return RTOS_OK;
    }
  }

  /** uart_init: the handle of an instance, or null for a number out of range or without memory. */
  method UartInit(instances: seq<UartHandle>, uartId: nat, rxSize: nat, txSize: nat) returns (uart: UartHandle?)
    requires |instances| == MAX_UART_INSTANCES && rxSize < 0x1_0000 && txSize < 0x1_0000
    requires uartId < MAX_UART_INSTANCES ==> instances[uartId].Valid()
    modifies if uartId < |instances|
             then {instances[uartId], instances[uartId].rx, instances[uartId].tx,
                   instances[uartId].heap, instances[uartId].heap.mem}
             else {}
    ensures uartId < MAX_UART_INSTANCES ==>
              && instances[uartId].Valid()
              && (uart != null <==> instances[uartId].initialized)
              && (uart != null <==>
                    || old(instances[uartId].initialized)
                    || instances[uartId].heap.ServesBoth(old(instances[uartId].heap.blocks), rxSize, txSize))
              && (old(instances[uartId].initialized) || uart == null ==>
                    instances[uartId].heap.blocks == old(instances[uartId].heap.blocks))
    ensures uart != null ==> uartId < MAX_UART_INSTANCES && uart == instances[uartId]
    ensures uart != null && !old(instances[uartId].initialized) ==>
              uart.rx.size == rxSize > 0 && uart.tx.size == txSize > 0 && uart.rx.queue == [] && uart.tx.queue == []
  {
    if uartId >= MAX_UART_INSTANCES {
      return null;
    }
    uart := instances[uartId];
    if uart.initialized {
      return uart;
    }
    var ok := uart.Open(rxSize, txSize);
    if !ok {
      return null;
    }
  }
}
