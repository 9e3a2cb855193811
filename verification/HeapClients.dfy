/** What the allocator's clients do with two allocations that belong together, and what the others
    do meanwhile. */
module HeapClients {
  import opened Blocks
  import opened Heap
  import opened HeapCalls
  import opened HeapMemory

  /** rtos_malloc for the second of two allocations; if it fails, the first is released. */
  method MallocOrRelease(heap: Allocator, size: nat, first: int) returns (ptr: int)
    requires heap.Valid() && heap.LivePtr(first)
    modifies heap, heap.mem
    ensures heap.Valid() && heap.memoryInitialized == old(heap.memoryInitialized)
    ensures ptr != NULL <==> heap.Serves(old(heap.blocks), size)
    ensures ptr == NULL ==> Live(heap.blocks) == Live(old(heap.blocks)) - {old(heap.BlockOf(first))}
    ensures ptr == NULL ==> ReadsAsFree(heap.mem[..], first - heap.h, heap.h)
    ensures ptr != NULL ==>
              && heap.LivePtr(first) && heap.BlockOf(first) == old(heap.BlockOf(first))
              && heap.LivePtr(ptr) && (size <= heap.BlockOf(ptr).size <==> size + 3 < heap.word) && ptr != first
              && heap.BlockOf(ptr) !in Live(old(heap.blocks))
              && Live(heap.blocks) == Live(old(heap.blocks)) + {heap.BlockOf(ptr)}
    ensures SamePayloads(old(heap.mem[..]), heap.mem[..],
                         Live(old(heap.blocks)) - {old(heap.BlockOf(first))}, heap.h)
  {
    ghost var live, b := Live(heap.blocks), heap.BlockOf(first);
    heap.ChoiceServes(size);
    ptr := heap.RtosMalloc(size);
    heap.PtrOfLive(b);
    if ptr == NULL {
      ghost var m := heap.mem[..];
      heap.LivePtrMeaning(first);
      heap.RtosFree(first);
      SamePayloadsTrans(old(heap.mem[..]), m, heap.mem[..], live, live - {b}, live - {b}, heap.h);
    }
  }

  /** Both allocations or neither: on failure the block list is exactly what it was. p may then be
      the pointer that was released again. */
  method MallocPair(heap: Allocator, size: nat, size': nat) returns (p: int, q: int)
    requires heap.Valid()
    modifies heap, heap.mem
    ensures heap.Valid() && heap.memoryInitialized == old(heap.memoryInitialized)
    ensures p == NULL ==> q == NULL
    ensures q != NULL <==> heap.ServesBoth(old(heap.blocks), size, size')
    ensures q == NULL ==> heap.blocks == old(heap.blocks)
    ensures q == NULL ==> p == NULL || ReadsAsFree(heap.mem[..], p - heap.h, heap.h)
    ensures q != NULL ==>
              && NewPair(heap, old(heap.blocks), p, q)
              && (size <= heap.BlockOf(p).size <==> size + 3 < heap.word)
              && (size' <= heap.BlockOf(q).size <==> size' + 3 < heap.word)
    ensures SamePayloads(old(heap.mem[..]), heap.mem[..], Live(old(heap.blocks)), heap.h)
  {
    ghost var bs, live := heap.blocks, Live(heap.blocks);
    q := NULL;
    heap.ChoiceServes(size);
    p := heap.RtosMalloc(size);
    if p == NULL {
      return;
    }
    ghost var m, b := heap.mem[..], heap.BlockOf(p);
    q := MallocOrRelease(heap, size', p);
    assert live <= live + {b} - {b};
    SamePayloadsTrans(old(heap.mem[..]), m, heap.mem[..], live, live + {b} - {b}, live, heap.h);
    if q == NULL {
      Canonical(heap.blocks, bs, heap.h);
    }
  }

  /** Two distinct blocks are all that is new among the live ones. */
  ghost predicate NewPair(heap: Allocator, bs: seq<Block>, p: int, q: int)
    reads heap
  {
    && heap.LivePtr(p) && heap.LivePtr(q) && p != q
    && heap.BlockOf(p) !in Live(bs) && heap.BlockOf(q) !in Live(bs)
    && Live(heap.blocks) == Live(bs) + {heap.BlockOf(p), heap.BlockOf(q)}
  }

  /** rtos_free of both. */
  method ReleasePair(heap: Allocator, p: int, q: int)
    requires heap.Valid() && heap.LivePtr(p) && heap.LivePtr(q) && p != q
    modifies heap, heap.mem
    ensures heap.Valid() && heap.memoryInitialized == old(heap.memoryInitialized)
    ensures Live(heap.blocks) == Live(old(heap.blocks)) - {old(heap.BlockOf(p)), old(heap.BlockOf(q))}
    ensures SamePayloads(old(heap.mem[..]), heap.mem[..], Live(heap.blocks), heap.h)
  {
    ghost var c := heap.BlockOf(q);
    heap.LivePtrMeaning(p);
    heap.RtosFree(p);
    ghost var m, live := heap.mem[..], Live(heap.blocks);
    heap.PtrOfLive(c);
    heap.LivePtrMeaning(q);
    heap.RtosFree(q);
    SamePayloadsTrans(old(heap.mem[..]), m, heap.mem[..], live, Live(heap.blocks), Live(heap.blocks), heap.h);
  }

  // -------------------------------------------------------------------------------------------
  // Other users of the heap
  // -------------------------------------------------------------------------------------------

  /** rtos_malloc and rtos_calloc; rtos_realloc and rtos_free of the i-th pointer held; a store
      through it. */
  datatype Foreign =
    | Take(size: nat)
    | TakeCleared(num: nat, size: nat)
    | Resize(i: nat, size: nat)
    | Give(i: nat)
    | Store(i: nat, off: nat, v: bv8)

  /** Beside the blocks of kept exactly the blocks taken are live, and held points to them. */
  ghost predicate Holds(heap: Allocator, kept: set<Block>, held: seq<int>, taken: seq<Block>)
    reads heap
  {
    PointTo(held, taken, kept, heap.h) && Live(heap.blocks) == kept + set b | b in taken
  }

  /** These are the pointers to these blocks, which are distinct and not among those kept. */
  ghost predicate PointTo(held: seq<int>, taken: seq<Block>, kept: set<Block>, h: HeaderSize) {
    && |held| == |taken|
    && (forall i :: 0 <= i < |held| ==> held[i] == Payload(taken[i], h) && taken[i] !in kept)
    && (forall i, j :: 0 <= i < j < |taken| ==> taken[i] != taken[j])
  }

  method OthersTake(heap: Allocator, size: nat, ghost kept: set<Block>, held: seq<int>, ghost taken: seq<Block>)
      returns (held': seq<int>, ghost taken': seq<Block>)
    requires heap.Valid() && heap.memoryInitialized && Holds(heap, kept, held, taken)
    modifies heap, heap.mem
    ensures heap.Valid() && heap.memoryInitialized && Holds(heap, kept, held', taken')
    ensures SamePayloads(old(heap.mem[..]), heap.mem[..], kept, heap.h)
  {
    var ptr := heap.RtosMalloc(size);
    if ptr == NULL {
      return held, taken;
    }
    held', taken' := held + [ptr], taken + [heap.BlockOf(ptr)];
    forall i, j | 0 <= i < j < |taken'| ensures taken'[i] != taken'[j] {
      assert taken[i] in taken;
    }
  }

  method OthersGive(heap: Allocator, i: nat, ghost kept: set<Block>, held: seq<int>, ghost taken: seq<Block>)
      returns (held': seq<int>, ghost taken': seq<Block>)
    requires heap.Valid() && heap.memoryInitialized && Holds(heap, kept, held, taken) && i < |held|
    modifies heap, heap.mem
    ensures heap.Valid() && heap.memoryInitialized && Holds(heap, kept, held', taken')
    ensures |held'| == |held| - 1
    ensures SamePayloads(old(heap.mem[..]), heap.mem[..], kept, heap.h)
  {
    assert taken[i] in taken;
    heap.PtrOfLive(taken[i]);
    heap.LivePtrMeaning(held[i]);
    heap.RtosFree(held[i]);
    held', taken' := held[..i] + held[i + 1..], taken[..i] + taken[i + 1..];
    TakenWithout(held, taken, kept, i, heap.h);
    assert kept + (set b | b in taken) - {taken[i]} == kept + ((set b | b in taken) - {taken[i]});
  }

  lemma TakenWithout(held: seq<int>, taken: seq<Block>, kept: set<Block>, i: nat, h: HeaderSize)
    requires i < |taken| && PointTo(held, taken, kept, h)
    ensures var rest := taken[..i] + taken[i + 1..];
            && PointTo(held[..i] + held[i + 1..], rest, kept, h)
            && (set b | b in rest) == (set b | b in taken) - {taken[i]}
  {
    var rest := taken[..i] + taken[i + 1..];
    forall b | b in taken && b != taken[i] ensures b in rest {
      var j :| 0 <= j < |taken| && taken[j] == b;
      assert rest[if j < i then j else j - 1] == b;
    }
  }

  lemma TakenReplaced(kept: set<Block>, taken: seq<Block>, i: nat, b: Block)
    requires i < |taken| && (forall j, k :: 0 <= j < k < |taken| ==> taken[j] != taken[k])
    requires b !in (set x | x in taken) - {taken[i]}
    ensures var taken' := taken[i := b];
            && (forall j, k :: 0 <= j < k < |taken| ==> taken'[j] != taken'[k])
            && (set x | x in taken') == (set x | x in taken) - {taken[i]} + {b}
  {
    var taken' := taken[i := b];
    assert forall j :: 0 <= j < |taken| && j != i ==> taken[j] in (set x | x in taken) - {taken[i]};
    forall x | x in taken && x != taken[i] ensures x in taken' {
      var j :| 0 <= j < |taken| && taken[j] == x;
      assert taken'[j] == x;
    }
    assert taken'[i] == b;
  }

  method OthersResize(heap: Allocator, i: nat, size: nat, ghost kept: set<Block>, held: seq<int>,
                      ghost taken: seq<Block>) returns (held': seq<int>, ghost taken': seq<Block>)
    requires heap.Valid() && heap.memoryInitialized && Holds(heap, kept, held, taken)
    requires i < |held| && 0 < size && size + 3 < heap.word
    modifies heap, heap.mem
    ensures heap.Valid() && heap.memoryInitialized && Holds(heap, kept, held', taken')
    ensures SamePayloads(old(heap.mem[..]), heap.mem[..], kept, heap.h)
  {
    assert taken[i] in taken;
    heap.PtrOfLive(taken[i]);
    heap.CopyFitsMeaning(held[i], size);
    var ptr := heap.RtosRealloc(held[i], size);
    if ptr == NULL {
      return held, taken;
    }
    held', taken' := held[i := ptr], taken[i := heap.BlockOf(ptr)];
    TakenReplaced(kept, taken, i, heap.BlockOf(ptr));
  }

  method OthersStore(heap: Allocator, i: nat, off: nat, v: bv8, ghost kept: set<Block>, held: seq<int>,
                     ghost taken: seq<Block>)
    requires heap.Valid() && heap.memoryInitialized && Holds(heap, kept, held, taken) && i < |held|
    modifies heap.mem
    ensures heap.Valid() && heap.memoryInitialized && Holds(heap, kept, held, taken)
    ensures SamePayloads(old(heap.mem[..]), heap.mem[..], kept, heap.h)
  {
    assert taken[i] in taken;
    heap.PtrOfLive(taken[i]);
    heap.LivePtrMeaning(held[i]);
    heap.LiveInHeapIfAny();
    if off < heap.mem[held[i] - heap.h].hdr.size {
      heap.StoreByte(held[i], off, v);
    }
  }

  method OthersClear(heap: Allocator, num: nat, size: nat, ghost kept: set<Block>, held: seq<int>,
                     ghost taken: seq<Block>) returns (held': seq<int>, ghost taken': seq<Block>)
    requires heap.Valid() && heap.memoryInitialized && Holds(heap, kept, held, taken)
    requires num < heap.word && size < heap.word && MulSize(num, size, heap.word) + 3 < heap.word
    modifies heap, heap.mem
    ensures heap.Valid() && heap.memoryInitialized && Holds(heap, kept, held', taken')
    ensures SamePayloads(old(heap.mem[..]), heap.mem[..], kept, heap.h)
  {
    var ptr := heap.RtosCalloc(num, size);
    if ptr == NULL {
      return held, taken;
    }
    held', taken' := held + [ptr], taken + [heap.BlockOf(ptr)];
    forall i, j | 0 <= i < j < |taken'| ensures taken'[i] != taken'[j] {
      assert taken[i] in taken;
    }
  }

  /** One call of another user; calls that would be wrong use of a pointer are left out. */
  method OthersStep(heap: Allocator, call: Foreign, ghost kept: set<Block>, held: seq<int>, ghost taken: seq<Block>)
      returns (held': seq<int>, ghost taken': seq<Block>)
    requires heap.Valid() && heap.memoryInitialized && Holds(heap, kept, held, taken)
    modifies heap, heap.mem
    ensures heap.Valid() && heap.memoryInitialized && Holds(heap, kept, held', taken')
    ensures SamePayloads(old(heap.mem[..]), heap.mem[..], kept, heap.h)
  {
    heap.LiveInHeapIfAny();
    held', taken' := held, taken;
    match call
    case Take(size) =>
      held', taken' := OthersTake(heap, size, kept, held, taken);
    case TakeCleared(num, size) =>
      if num < heap.word && size < heap.word && MulSize(num, size, heap.word) + 3 < heap.word {
        held', taken' := OthersClear(heap, num, size, kept, held, taken);
      }
    case Resize(i, size) =>
      if i < |held| && 0 < size && size + 3 < heap.word {
        held', taken' := OthersResize(heap, i, size, kept, held, taken);
      }
    case Give(i) =>
      if i < |held| {
        held', taken' := OthersGive(heap, i, kept, held, taken);
      }
    case Store(i, off, v) =>
      if i < |held| {
        OthersStore(heap, i, off, v, kept, held, taken);
      }
  }

  /** Any sequence of such calls leaves the live blocks it found live and their payloads alone. */
  method OthersRun(heap: Allocator, calls: seq<Foreign>) returns (held: seq<int>, ghost taken: seq<Block>)
    requires heap.Valid() && heap.memoryInitialized
    modifies heap, heap.mem
    ensures heap.Valid() && heap.memoryInitialized && Holds(heap, Live(old(heap.blocks)), held, taken)
    ensures SamePayloads(old(heap.mem[..]), heap.mem[..], Live(old(heap.blocks)), heap.h)
  {
    ghost var kept, m0 := Live(heap.blocks), heap.mem[..];
    heap.LiveInHeapIfAny();
    held, taken := [], [];
    for k := 0 to |calls|
      invariant heap.Valid() && heap.memoryInitialized && Holds(heap, kept, held, taken)
      invariant SamePayloads(m0, heap.mem[..], kept, heap.h)
    {
      ghost var m := heap.mem[..];
      held, taken := OthersStep(heap, calls[k], kept, held, taken);
      SamePayloadsTrans(m0, m, heap.mem[..], kept, kept, kept, heap.h);
    }
  }

  /** The rest is given back. */
  method OthersLeave(heap: Allocator, ghost kept: set<Block>, pointers: seq<int>, ghost blocks: seq<Block>)
    requires heap.Valid() && heap.memoryInitialized && Holds(heap, kept, pointers, blocks)
    modifies heap, heap.mem
    ensures heap.Valid() && heap.memoryInitialized && Live(heap.blocks) == kept
    ensures SamePayloads(old(heap.mem[..]), heap.mem[..], kept, heap.h)
  {
    ghost var m0 := heap.mem[..];
    heap.LiveInHeapIfAny();
    var held := pointers;
    ghost var taken := blocks;
    while held != []
      invariant heap.Valid() && heap.memoryInitialized && Holds(heap, kept, held, taken)
      invariant SamePayloads(m0, heap.mem[..], kept, heap.h)
      decreases |held|
    {
      ghost var m := heap.mem[..];
      held, taken := OthersGive(heap, 0, kept, held, taken);
      SamePayloadsTrans(m0, m, heap.mem[..], kept, kept, kept, heap.h);
    }
  }

  // -------------------------------------------------------------------------------------------
  // Releasing twice
  // -------------------------------------------------------------------------------------------

  /** The header offsets of pointers. */
  function Offsets(ptrs: seq<int>, h: HeaderSize): (offs: seq<nat>)
    requires forall i :: 0 <= i < |ptrs| ==> ptrs[i] >= h
  {
    seq(|ptrs|, i requires 0 <= i < |ptrs| => ptrs[i] - h)
  }

  lemma IntactStays(m: Memory, m': Memory, o: int, h: HeaderSize)
    requires Intact(m, o, h) && OnlyReleases(m, m')
    ensures Intact(m', o, h)
  {
  }

  /** Every pointer of ptrs has a header, and releasing the others cannot damage it. */
  ghost predicate HaveHeaders(heap: Allocator, ptrs: seq<int>)
    reads heap, heap.mem
  {
    forall i :: 0 <= i < |ptrs| ==> heap.HasHeader(ptrs[i])
  }

  /** bs is the list that releasing q leads to. */
  method FreeOne(heap: Allocator, p: int, q: int, ghost rest: seq<int>, ghost bs: seq<Block>)
    requires q >= heap.h && bs == HeapCalls.Free(heap.blocks, q - heap.h, heap.h)
    requires heap.Valid() && ReadsAsFree(heap.mem[..], p - heap.h, heap.h)
    requires heap.HasHeader(q) && HaveHeaders(heap, rest)
    modifies heap, heap.mem
    ensures heap.Valid() && ReadsAsFree(heap.mem[..], p - heap.h, heap.h) && HaveHeaders(heap, rest)
    ensures heap.blocks == bs
  {
    heap.RtosFree(q);
    StillReadsAsFree(old(heap.mem[..]), heap.mem[..], p - heap.h, heap.h);
    forall i | 0 <= i < |rest| ensures heap.HasHeader(rest[i]) {
      IntactStays(old(heap.mem[..]), heap.mem[..], rest[i] - heap.h, heap.h);
    }
  }

  /** offs are their header offsets, and all is the list that releasing them leads to. */
  method FreeOthers(heap: Allocator, p: int, others: seq<int>, ghost offs: seq<nat>, ghost all: seq<Block>)
    requires heap.Valid() && ReadsAsFree(heap.mem[..], p - heap.h, heap.h) && HaveHeaders(heap, others)
    requires |offs| == |others| && forall i :: 0 <= i < |offs| ==> offs[i] == others[i] - heap.h
    requires all == FreeEach(heap.blocks, offs, heap.h)
    modifies heap, heap.mem
    ensures heap.Valid() && ReadsAsFree(heap.mem[..], p - heap.h, heap.h)
    ensures heap.blocks == all
    decreases |others|
  {
    if others != [] {
      ghost var rest, bs := offs[1..], HeapCalls.Free(heap.blocks, offs[0], heap.h);
      HeadersOfRest(heap, others);
      FreeEachStep(heap.blocks, offs, rest, bs, heap.h);
      FreeOne(heap, p, others[0], others[1..], bs);
      FreeOthers(heap, p, others[1..], rest, all);
    }
  }

  lemma HeadersOfRest(heap: Allocator, ptrs: seq<int>)
    requires HaveHeaders(heap, ptrs) && ptrs != []
    ensures heap.HasHeader(ptrs[0]) && HaveHeaders(heap, ptrs[1..])
  {
  }

  lemma {:induction false} FreeEachStep(bs: seq<Block>, offs: seq<nat>, rest: seq<nat>, bs': seq<Block>, h: HeaderSize)
    requires offs != [] && rest == offs[1..] && bs' == HeapCalls.Free(bs, offs[0], h)
    ensures FreeEach(bs, offs, h) == FreeEach(bs', rest, h)
  {
  }

  /** p is released, then any others, then p again. The second release of p changes nothing: memory,
      block list and statistics are still the m, bs and s from before it. */
  method FreeAgain(heap: Allocator, p: int, others: seq<int>)
      returns (ghost m: Memory, ghost bs: seq<Block>, ghost s: Stats)
    requires heap.Valid() && heap.HasHeader(p) && HaveHeaders(heap, others)
    modifies heap, heap.mem
    ensures heap.Valid() && heap.mem[..] == m && heap.blocks == bs && heap.stats == s
    ensures bs ==
            FreeEach(HeapCalls.Free(old(heap.blocks), p - heap.h, heap.h), Offsets(others, heap.h), heap.h)
  {
    heap.RtosFree(p);
    forall i | 0 <= i < |others| ensures heap.HasHeader(others[i]) {
      IntactStays(old(heap.mem[..]), heap.mem[..], others[i] - heap.h, heap.h);
    }
    ghost var offs := Offsets(others, heap.h);
    FreeOthers(heap, p, others, offs, FreeEach(heap.blocks, offs, heap.h));
    m, bs, s := heap.mem[..], heap.blocks, heap.stats;
    heap.RtosFree(p);
  }
}
