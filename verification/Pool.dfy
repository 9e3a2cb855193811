/** Fixed-size block pools (src/kernel/memory.c) whose blocks and bitmap live in the heap. */
module Pool {
  import opened Bitmap
  import opened Blocks
  import opened Heap
  import opened HeapCalls
  import opened HeapClients
  import opened HeapMemory
  import opened RtosTypes
  import opened Slots

  function BitmapSize(numBlocks: nat): nat {
    (numBlocks + 7) / 8
  }

  ghost predicate BitAt(m: Memory, p: int, i: nat)
    requires 0 <= p + i / 8 < |m| && m[p + i / 8].Byte?
  {
    Bit(m[p + i / 8].b, i % 8)
  }

  /** All bits of a bitmap, the padding of the last byte included. */
  ghost function BitsAt(m: Memory, p: int, bytes: nat): (bits: seq<bool>)
    requires ByteRange(m, p, bytes)
    ensures |bits| == 8 * bytes
    ensures forall i :: 0 <= i < 8 * bytes ==> bits[i] == BitAt(m, p, i)
  {
    seq(8 * bytes, i requires 0 <= i < 8 * bytes => BitAt(m, p, i))
  }

  lemma SameByte(m: Memory, p: int, bytes: nat, i: nat, v: bool, j: nat)
    requires ByteRange(m, p, bytes) && i < 8 * bytes && j / 8 == i / 8
    ensures BitAt(m[p + i / 8 := Byte(Changed(m[p + i / 8].b, i % 8, v))], p, j) == if j == i then v else BitAt(m, p, j)
  {
    BitChanged(m[p + i / 8].b, i % 8, j % 8, v);
  }

  lemma OtherByte(m: Memory, p: int, bytes: nat, i: nat, v: bool, j: nat)
    requires ByteRange(m, p, bytes) && i < 8 * bytes && j < 8 * bytes && j / 8 != i / 8
    ensures BitAt(m[p + i / 8 := Byte(Changed(m[p + i / 8].b, i % 8, v))], p, j) == BitAt(m, p, j)
  {
  }

  lemma BitsUpdate(m: Memory, m': Memory, p: int, bytes: nat, i: nat, v: bool)
    requires ByteRange(m, p, bytes) && i < 8 * bytes
    requires m' == m[p + i / 8 := Byte(Changed(m[p + i / 8].b, i % 8, v))]
    ensures ByteRange(m', p, bytes) && BitsAt(m', p, bytes) == BitsAt(m, p, bytes)[i := v]
  {
    forall j | 0 <= j < 8 * bytes
      ensures BitAt(m', p, j) == if j == i then v else BitAt(m, p, j)
    {
      if j / 8 == i / 8 {
        SameByte(m, p, bytes, i, v, j);
      } else {
        OtherByte(m, p, bytes, i, v, j);
      }
    }
    assert BitsAt(m', p, bytes) == BitsAt(m, p, bytes)[i := v];
  }

  lemma BitsStay(m: Memory, m': Memory, p: int, bytes: nat)
    requires ByteRange(m, p, bytes) && |m'| == |m| && forall o :: p <= o < p + bytes ==> m'[o] == m[o]
    ensures ByteRange(m', p, bytes) && BitsAt(m', p, bytes) == BitsAt(m, p, bytes)
  {
    forall i | 0 <= i < 8 * bytes ensures BitAt(m', p, i) == BitAt(m, p, i) {
      assert m'[p + i / 8] == m[p + i / 8];
    }
  }

  /** The address of block i of a pool. */
  function BlockAddress(poolStart: int, blockSize: nat, i: nat): int {
    poolStart + i * blockSize
  }

  /** What happens during a pool's life: a call of another user of the heap, or of its own user. */
  datatype PoolUse = Other(call: Foreign) | AllocBlock | FreeBlock(ptr: int)

  function OtherCalls(uses: seq<PoolUse>): seq<Foreign> {
    if uses == [] then []
    else (if uses[0].Other? then [uses[0].call] else []) + OtherCalls(uses[1..])
  }

  class MemoryPool {
    const heap: Allocator
    var poolStart: int
    var blockSize: nat
    var numBlocks: nat
    var freeBlocks: nat
    var freeList: int

    /** memset(pool, 0, sizeof(memory_pool_t)) */
    constructor (heap: Allocator)
      ensures this.heap == heap && poolStart == NULL && freeList == NULL
    {
      this.heap := heap;
      poolStart, freeList := NULL, NULL;
      blockSize, numBlocks, freeBlocks := 0, 0, 0;
    }

    ghost predicate Shaped()
      reads this, heap, heap.mem
    {
      && heap.Valid()
      && heap.LivePtr(poolStart) && heap.LivePtr(freeList) && poolStart != freeList
      && blockSize > 0 && numBlocks > 0
      && numBlocks * blockSize <= heap.BlockOf(poolStart).size
      && BitmapSize(numBlocks) <= heap.BlockOf(freeList).size
      && ByteRange(heap.mem[..], freeList, BitmapSize(numBlocks))
    }

    ghost function Bits(): seq<bool>
      requires Shaped()
      reads this, heap, heap.mem
    {
      BitsAt(heap.mem[..], freeList, BitmapSize(numBlocks))
    }

    /** The count is that of the free bits, and the padding bits have never been touched. */
    ghost predicate Valid()
      reads this, heap, heap.mem
    {
      && Shaped()
      && freeBlocks == CountSet(Bits()[..numBlocks])
      && forall i :: numBlocks <= i < |Bits()| ==> Bits()[i]
    }

    /** Blocks of a pool lie inside its heap block and do not overlap. */
    lemma AddressesApart(i: nat, j: nat)
      requires Shaped() && i < numBlocks && j < numBlocks && i != j
      ensures var p, q := BlockAddress(poolStart, blockSize, i), BlockAddress(poolStart, blockSize, j);
              && poolStart <= p && p + blockSize <= poolStart + heap.BlockOf(poolStart).size
              && (p + blockSize <= q || q + blockSize <= p)
    {
      SlotInside(i, numBlocks, blockSize);
      SlotsApart(i, j, blockSize);
    }

    /** pool_start is null or points to a block that was given back and is still free. */
    ghost predicate HoldsNothing()
      reads this, heap, heap.mem
    {
      poolStart == NULL || ReadsAsFree(heap.mem[..], poolStart - heap.h, heap.h)
    }

    /** A failed creation leaves such a record; its pointer may be handed out again later. */
    ghost predicate Abandoned()
      reads this, heap, heap.mem
    {
      freeList == NULL && (poolStart == NULL || heap.HasHeader(poolStart))
    }

    /** The blocks of the pool and of its bitmap are live. */
    ghost predicate Owns()
      reads this, heap
    {
      heap.LivePtr(poolStart) && heap.LivePtr(freeList) && poolStart != freeList
    }

    /** The list has room for the blocks and then for the bitmap. */
    ghost predicate HasSpace(bs: seq<Block>, aligned: nat, count: nat) {
      heap.ServesBoth(bs, MulSize(count, aligned, heap.word), AddSize(count, 7, heap.word) / 8)
    }

    /** size and count are size_t values. If the space for all blocks wraps around the word size,
        the pool is created all the same, with less memory than it hands out. */
    method MemoryPoolCreate(size: nat, count: nat) returns (status: RtosStatus)
      requires heap.Valid() && size < heap.word && count < heap.word
      modifies this, heap, heap.mem
      ensures heap.Valid() && heap.memoryInitialized == old(heap.memoryInitialized)
      ensures status in {RTOS_OK, RTOS_ERROR_INVALID_PARAM, RTOS_ERROR_NO_MEMORY}
      ensures status == RTOS_ERROR_INVALID_PARAM <==> size == 0 || count == 0
      ensures status == RTOS_OK <==>
                size > 0 && count > 0 && HasSpace(old(heap.blocks), AlignSize(size, heap.word), count)
      ensures status != RTOS_OK ==> heap.blocks == old(heap.blocks)
      ensures status == RTOS_ERROR_NO_MEMORY ==>
                HoldsNothing() && freeList == if poolStart == NULL then old(freeList) else NULL
      ensures status == RTOS_OK ==>
                && freeBlocks == numBlocks == count && blockSize == AlignSize(size, heap.word)
                && Owns() && NewPair(heap, old(heap.blocks), poolStart, freeList)
                && (Valid() <==> count * blockSize + 3 < heap.word)
                && (Valid() ==> size <= blockSize < size + 4 && forall i :: 0 <= i < |Bits()| ==> Bits()[i])
      ensures SamePayloads(old(heap.mem[..]), heap.mem[..], Live(old(heap.blocks)), heap.h)
    {
      heap.LiveInHeapIfAny();
      if size == 0 || count == 0 {
        return RTOS_ERROR_INVALID_PARAM;
      }
      var aligned := AlignSize(size, heap.word);
      AlignSizeMeaning(size, heap.word);
      status := Allocate(aligned, count);
    }

    /** memory_pool_create from the aligned block size on. */
    method Allocate(aligned: nat, count: nat) returns (status: RtosStatus)
      requires heap.Valid() && 0 < count < heap.word
      modifies this, heap, heap.mem
      ensures heap.Valid() && heap.memoryInitialized == old(heap.memoryInitialized)
      ensures status == if HasSpace(old(heap.blocks), aligned, count) then RTOS_OK else RTOS_ERROR_NO_MEMORY
      ensures status != RTOS_OK ==>
                && heap.blocks == old(heap.blocks)
                && HoldsNothing() && freeList == if poolStart == NULL then old(freeList) else NULL
      ensures status == RTOS_OK ==>
                && freeBlocks == numBlocks == count && blockSize == aligned > 0
                && Owns() && NewPair(heap, old(heap.blocks), poolStart, freeList)
                && (Valid() <==> count * aligned + 3 < heap.word)
                && (Valid() ==> forall i :: 0 <= i < |Bits()| ==> Bits()[i])
      ensures SamePayloads(old(heap.mem[..]), heap.mem[..], Live(old(heap.blocks)), heap.h)
    {
      var ok := AllocatePair(aligned, count);
      if !ok {
        return RTOS_ERROR_NO_MEMORY;
      }
      ghost var live, m := Live(old(heap.blocks)), heap.mem[..];
      blockSize, numBlocks, freeBlocks := aligned, count, count;
      FillBitmap(AddSize(count, 7, heap.word) / 8);
      SamePayloadsTrans(old(heap.mem[..]), m, heap.mem[..],
                        live, Live(heap.blocks) - {heap.BlockOf(freeList)}, live, heap.h);
      return RTOS_OK;
    }

    /** The two allocations. Rounding the number of bitmap bytes may wrap as well, but then that
        number is 0 and the allocation fails. */
    method AllocatePair(aligned: nat, count: nat) returns (ok: bool)
      requires heap.Valid() && 0 < count < heap.word
      modifies this`poolStart, this`freeList, heap, heap.mem
      ensures heap.Valid() && heap.memoryInitialized == old(heap.memoryInitialized)
      ensures ok <==> HasSpace(old(heap.blocks), aligned, count)
      ensures !ok ==>
                && heap.blocks == old(heap.blocks)
                && HoldsNothing() && freeList == if poolStart == NULL then old(freeList) else NULL
      ensures ok ==>
                && Owns() && NewPair(heap, old(heap.blocks), poolStart, freeList)
                && aligned > 0 && AddSize(count, 7, heap.word) / 8 == BitmapSize(count)
                && BitmapSize(count) <= heap.BlockOf(freeList).size
                && (count * aligned <= heap.BlockOf(poolStart).size <==> count * aligned + 3 < heap.word)
      ensures SamePayloads(old(heap.mem[..]), heap.mem[..], Live(old(heap.blocks)), heap.h)
    {
      var total, bitmapSize := MulSize(count, aligned, heap.word), AddSize(count, 7, heap.word) / 8;
      var p, q := MallocPair(heap, total, bitmapSize);
      poolStart := p;
      if p == NULL {
        return false;
      }
      freeList := q;
      if q == NULL {
        return false;
      }
      heap.LivePtrMeaning(poolStart);
      ProductFits(count, aligned, heap.word, heap.BlockOf(poolStart).size);
      NonzeroProduct(count, aligned, heap.word);
      return true;
    }

    /** memset(pool->free_list, 0xFF, bitmap_size) */
    method FillBitmap(bitmapSize: nat)
      requires heap.Valid() && Owns() && blockSize > 0 && freeBlocks == numBlocks > 0
      requires bitmapSize == BitmapSize(numBlocks) <= heap.BlockOf(freeList).size
      modifies heap.mem
      ensures heap.Valid()
      ensures Valid() <==> numBlocks * blockSize <= heap.BlockOf(poolStart).size
      ensures Valid() ==> forall i :: 0 <= i < |Bits()| ==> Bits()[i]
      ensures SamePayloads(old(heap.mem[..]), heap.mem[..], Live(heap.blocks) - {heap.BlockOf(freeList)}, heap.h)
    {
      heap.MemSet(freeList, 0xFF, bitmapSize);
      heap.LivePtrMeaning(freeList);
      if numBlocks * blockSize <= heap.BlockOf(poolStart).size {
        AllBitsSet();
      }
    }

    lemma AllBitsSet()
      requires Shaped()
      requires forall o :: freeList <= o < freeList + BitmapSize(numBlocks) && o < heap.mem.Length ==>
                 heap.mem[o] == Byte(0xFF)
      ensures forall i :: 0 <= i < |Bits()| ==> Bits()[i]
      ensures CountSet(Bits()[..numBlocks]) == numBlocks
    {
      forall i | 0 <= i < |Bits()| ensures Bits()[i] {
        AllOnes(i % 8);
      }
      CountPrefixBounds(Bits(), numBlocks);
    }

    /** Whether block i is the lowest free one. */
    ghost predicate IsLowestFree(bits: seq<bool>, i: nat) {
      i < |bits| && bits[i] && forall j :: 0 <= j < i ==> !bits[j]
    }

    /** Sets or clears the bit of block i in the heap. */
    method WriteBit(i: nat, v: bool)
      requires Shaped() && i < numBlocks
      modifies heap.mem
      ensures Shaped() && Bits() == old(Bits())[i := v]
      ensures CountSet(Bits()[..numBlocks]) == CountSet(old(Bits())[..numBlocks]) +
                (if v then 1 else 0) - if old(Bits())[i] then 1 else 0
      ensures SamePayloads(old(heap.mem[..]), heap.mem[..], Live(heap.blocks) - {heap.BlockOf(freeList)}, heap.h)
    {
      ghost var before, bits := heap.mem[..], Bits();
      StoreBitmapByte(i / 8, Changed(heap.mem[freeList + i / 8].b, i % 8, v));
      BitsUpdate(before, heap.mem[..], freeList, BitmapSize(numBlocks), i, v);
      CountPrefixUpdate(bits, numBlocks, i, v);
    }

    method StoreBitmapByte(byteIdx: nat, b: bv8)
      requires Shaped() && byteIdx < BitmapSize(numBlocks)
      modifies heap.mem
      ensures Shaped() && heap.mem[..] == old(heap.mem[..])[freeList + byteIdx := Byte(b)]
      ensures SamePayloads(old(heap.mem[..]), heap.mem[..], Live(heap.blocks) - {heap.BlockOf(freeList)}, heap.h)
    {
      heap.StoreByte(freeList, byteIdx, b);
    }

    /** pool->free_list[i / 8] & (1 << (i % 8)) */
    method TestBit(i: nat) returns (b: bool)
      requires Shaped() && i < numBlocks
      ensures b == Bits()[i]
    {
      b := Bit(heap.mem[freeList + i / 8].b, i % 8);
      assert Bits()[i] == BitAt(heap.mem[..], freeList, i);
    }

    method MemoryPoolAlloc() returns (ptr: int, ghost i: nat)
      requires Valid()
      modifies this`freeBlocks, heap.mem
      ensures Valid()
      ensures ptr == NULL <==> old(freeBlocks) == 0
      ensures ptr == NULL ==> heap.mem[..] == old(heap.mem[..]) && freeBlocks == old(freeBlocks)
      ensures ptr != NULL ==>
                && i < numBlocks && IsLowestFree(old(Bits()), i) && ptr == BlockAddress(poolStart, blockSize, i)
                && Bits() == old(Bits())[i := false] && freeBlocks == old(freeBlocks) - 1
      ensures SamePayloads(old(heap.mem[..]), heap.mem[..], Live(heap.blocks) - {heap.BlockOf(freeList)}, heap.h)
    {
      LiveInHeap(heap.blocks, heap.h);
      heap.LivePtrMeaning(freeList);
      CountPrefixBounds(Bits(), numBlocks);
      ptr, i := NULL, 0;
      if freeBlocks == 0 {
        return;
      }
      var k := FindFree();
      MarkUsed(k);
      SlotInside(k, numBlocks, blockSize);
      return BlockAddress(poolStart, blockSize, k), k;
    }

    method MarkUsed(i: nat)
      requires Valid() && i < numBlocks && Bits()[i]
      modifies this`freeBlocks, heap.mem
      ensures Valid() && Bits() == old(Bits())[i := false] && freeBlocks == old(freeBlocks) - 1
      ensures SamePayloads(old(heap.mem[..]), heap.mem[..], Live(heap.blocks) - {heap.BlockOf(freeList)}, heap.h)
    {
      WriteBit(i, false);
      freeBlocks := freeBlocks - 1;
    }

    /** The scan of memory_pool_alloc; it always finds a block, so the last return of the C
        function is never reached. */
    method FindFree() returns (k: nat)
      requires Valid() && freeBlocks > 0
      ensures k < numBlocks && IsLowestFree(Bits(), k)
    {
      ghost var i := SomeFree();
      k := FirstSet(Bits(), i);
    }

    lemma SomeFree() returns (i: nat)
      requires Valid() && freeBlocks > 0
      ensures i < numBlocks && Bits()[i]
    {
      CountPrefixBounds(Bits(), numBlocks);
      i :| i < numBlocks && Bits()[i];
    }

    /** The loop, given that it is going to find a bit. */
    method FirstSet(ghost bits: seq<bool>, ghost i: nat) returns (k: nat)
      requires Shaped() && bits == Bits() && i < numBlocks && bits[i]
      ensures k < numBlocks && IsLowestFree(bits, k)
    {
      k := 0;
      while k < numBlocks
        invariant k <= i && forall j :: 0 <= j < k ==> !bits[j]
      {
        var isFree := TestBit(k);
        if isFree {
          return;
        }
        k := k + 1;
      }
    }

    /** i is the block that ptr names, or -1 if it is not the address of any. */
    method MemoryPoolFree(ptr: int) returns (status: RtosStatus, ghost i: int)
      requires Valid() && NULL <= ptr < heap.word
      modifies this`freeBlocks, heap.mem
      ensures Valid()
      ensures -1 <= i < numBlocks
      ensures forall j: nat :: j < numBlocks ==> (ptr == BlockAddress(poolStart, blockSize, j) <==> i == j)
      ensures status == if i == -1 then RTOS_ERROR_INVALID_PARAM
                        else if old(Bits())[i] then RTOS_ERROR
                        else RTOS_OK
      ensures status == RTOS_OK ==> Bits() == old(Bits())[i := true] && freeBlocks == old(freeBlocks) + 1
      ensures status != RTOS_OK ==> heap.mem[..] == old(heap.mem[..]) && freeBlocks == old(freeBlocks)
      ensures SamePayloads(old(heap.mem[..]), heap.mem[..], Live(heap.blocks) - {heap.BlockOf(freeList)}, heap.h)
    {
      LiveInHeap(heap.blocks, heap.h);
      if ptr == NULL {
        NullIsNoAddress();
        return RTOS_ERROR_INVALID_PARAM, -1;
      }
      var blockIdx := BlockIndex(ptr);
      i := blockIdx;
      if blockIdx == -1 {
        return RTOS_ERROR_INVALID_PARAM, i;
      }
      var isFree := TestBit(blockIdx);
      if isFree {
        return RTOS_ERROR, i;
      }
      MarkFree(blockIdx);
      return RTOS_OK, i;
    }

    method MarkFree(i: nat)
      requires Valid() && i < numBlocks && !Bits()[i]
      modifies this`freeBlocks, heap.mem
      ensures Valid() && Bits() == old(Bits())[i := true] && freeBlocks == old(freeBlocks) + 1
      ensures SamePayloads(old(heap.mem[..]), heap.mem[..], Live(heap.blocks) - {heap.BlockOf(freeList)}, heap.h)
    {
      WriteBit(i, true);
      freeBlocks := freeBlocks + 1;
    }

    /** What memory_pool_alloc takes, memory_pool_free gives back. */
    method AllocThenFree()
      requires Valid() && freeBlocks > 0
      modifies this`freeBlocks, heap.mem
      ensures Valid() && Bits() == old(Bits()) && freeBlocks == old(freeBlocks)
    {
      ghost var bits := Bits();
      var ptr, i := MemoryPoolAlloc();
      FreeTaken(ptr, i, bits);
    }

    /** memory_pool_free of a block in use. */
    method FreeTaken(ptr: int, ghost i: nat, ghost bits: seq<bool>)
      requires Valid() && i < numBlocks && ptr == BlockAddress(poolStart, blockSize, i)
      requires i < |bits| && bits[i] && Bits() == bits[i := false]
      modifies this`freeBlocks, heap.mem
      ensures Valid() && Bits() == bits && freeBlocks == old(freeBlocks) + 1
    {
      assert bits[i := false][i := true] == bits;
      AddressBelow(i);
      var status, j := MemoryPoolFree(ptr);
    }

    lemma AddressBelow(i: nat)
      requires Shaped() && i < numBlocks
      ensures 0 <= BlockAddress(poolStart, blockSize, i) < heap.word
    {
      heap.LivePtrMeaning(poolStart);
      SlotInside(i, numBlocks, blockSize);
    }

    lemma NullIsNoAddress()
      requires Shaped()
      ensures forall j: nat :: j < numBlocks ==> BlockAddress(poolStart, blockSize, j) != NULL
    {
      forall j: nat | j < numBlocks ensures BlockAddress(poolStart, blockSize, j) != NULL {
        SlotInside(j, numBlocks, blockSize);
      }
    }

    /** The checks at the head of memory_pool_free: the block a pointer names, or -1. The division
        recovers it, also when ptr lies below the pool and the subtraction wraps. */
    method BlockIndex(ptr: int) returns (blockIdx: int)
      requires Shaped() && 0 <= ptr < heap.word
      ensures -1 <= blockIdx < numBlocks
      ensures forall i: nat :: i < numBlocks ==> (ptr == BlockAddress(poolStart, blockSize, i) <==> blockIdx == i)
    {
      heap.LivePtrMeaning(poolStart);
      var offset := SubSize(ptr, poolStart, heap.word);
      forall i: nat | i < numBlocks
        ensures ptr == BlockAddress(poolStart, blockSize, i) <==> offset % blockSize == 0 && offset / blockSize == i
      {
        SlotInside(i, numBlocks, blockSize);
        SlotStart(offset, i, blockSize);
      }
      if offset % blockSize != 0 {
        return -1;
      }
      blockIdx := offset / blockSize;
      if blockIdx >= numBlocks {
        return -1;
      }
    }

    /** Whatever others do with the heap: a pool stays valid, with the same blocks in use, while its
        two blocks stay live and the payload of the bitmap is left alone. */
    twostate lemma Survives()
      requires old(Valid()) && heap.Valid() && unchanged(this)
      requires old(heap.BlockOf(poolStart)) in Live(heap.blocks)
      requires var b := old(heap.BlockOf(freeList));
               b in Live(heap.blocks) && SamePayloads(old(heap.mem[..]), heap.mem[..], {b}, heap.h)
      ensures Valid() && Bits() == old(Bits())
    {
      ghost var a, b := old(heap.BlockOf(poolStart)), old(heap.BlockOf(freeList));
      heap.PtrOfLive(a);
      heap.PtrOfLive(b);
      assert SamePayload(old(heap.mem[..]), heap.mem[..], b, heap.h);
      heap.LivePtrMeaning(freeList);
      BitsStay(old(heap.mem[..]), heap.mem[..], freeList, BitmapSize(numBlocks));
    }

    twostate lemma StillOwns(kept: set<Block>)
      requires old(Owns()) && heap.Valid() && unchanged(this) && kept <= Live(heap.blocks)
      requires old(heap.BlockOf(poolStart)) in kept && old(heap.BlockOf(freeList)) in kept
      ensures Owns()
      ensures heap.BlockOf(poolStart) == old(heap.BlockOf(poolStart))
      ensures heap.BlockOf(freeList) == old(heap.BlockOf(freeList))
    {
      heap.PtrOfLive(old(heap.BlockOf(poolStart)));
      heap.PtrOfLive(old(heap.BlockOf(freeList)));
    }

    /** Destroying a pool releases its two blocks. The record of a failed creation can be destroyed,
        too, and that is harmless exactly if the pointer in it has not been handed out again. */
    method MemoryPoolDestroy()
      requires heap.Valid() && (Owns() || Abandoned())
      modifies this, heap, heap.mem
      ensures heap.Valid() && heap.memoryInitialized == old(heap.memoryInitialized)
      ensures poolStart == NULL && freeList == NULL
      ensures old(Owns()) ==>
                Live(heap.blocks) ==
                Live(old(heap.blocks)) - {old(heap.BlockOf(poolStart)), old(heap.BlockOf(freeList))}
      ensures old(Abandoned()) ==>
                && (heap.blocks == old(heap.blocks) <==> old(!heap.LivePtr(poolStart)))
                && Live(heap.blocks) ==
                   Live(old(heap.blocks)) - if old(heap.LivePtr(poolStart)) then {old(heap.BlockOf(poolStart))} else {}
      ensures SamePayloads(old(heap.mem[..]), heap.mem[..], Live(heap.blocks), heap.h)
    {
      heap.LiveInHeapIfAny();
      if freeList != NULL {
        ReleasePair(heap, poolStart, freeList);
      } else if poolStart != NULL {
        heap.RtosFree(poolStart);
      }
      poolStart, freeList := NULL, NULL;
      blockSize, numBlocks, freeBlocks := 0, 0, 0;
    }

    /** Whatever happened since bs: a pool whose blocks are all that is live beyond bs leaves the
        block list exactly as bs when it is destroyed. */
    method DestroyRestores(ghost bs: seq<Block>)
      requires heap.Valid() && heap.memoryInitialized && Wf(bs, heap.h)
      requires Owns() && NewPair(heap, bs, poolStart, freeList)
      modifies this, heap, heap.mem
      ensures heap.Valid() && heap.blocks == bs
    {
      MemoryPoolDestroy();
      heap.SameLive(bs);
    }

    /** One call of the pool's owner or of another user of the heap. */
    method UseOnce(use: PoolUse, ghost kept: set<Block>, held: seq<int>, ghost taken: seq<Block>)
        returns (held': seq<int>, ghost taken': seq<Block>)
      requires Valid() && heap.memoryInitialized && Holds(heap, kept, held, taken)
      requires heap.BlockOf(poolStart) in kept && heap.BlockOf(freeList) in kept
      modifies this`freeBlocks, heap, heap.mem
      ensures Valid() && heap.memoryInitialized && Holds(heap, kept, held', taken')
      ensures heap.BlockOf(poolStart) == old(heap.BlockOf(poolStart))
      ensures heap.BlockOf(freeList) == old(heap.BlockOf(freeList))
    {
      held', taken' := held, taken;
      match use
      case Other(call) =>
        held', taken' := OthersStep(heap, call, kept, held, taken);
        Survives();
        StillOwns(kept);
      case AllocBlock =>
        var ptr, i := MemoryPoolAlloc();
      case FreeBlock(ptr) =>
        if NULL <= ptr < heap.word {
          var status, i := MemoryPoolFree(ptr);
        }
    }

    method UseAll(uses: seq<PoolUse>, ghost kept: set<Block>) returns (held: seq<int>, ghost taken: seq<Block>)
      requires Valid() && heap.memoryInitialized && kept == Live(heap.blocks)
      modifies this`freeBlocks, heap, heap.mem
      ensures Valid() && heap.memoryInitialized && Holds(heap, kept, held, taken)
      ensures heap.BlockOf(poolStart) == old(heap.BlockOf(poolStart))
      ensures heap.BlockOf(freeList) == old(heap.BlockOf(freeList))
    {
      held, taken := [], [];
      for k := 0 to |uses|
        invariant Valid() && heap.memoryInitialized && Holds(heap, kept, held, taken)
        invariant heap.BlockOf(poolStart) == old(heap.BlockOf(poolStart))
        invariant heap.BlockOf(freeList) == old(heap.BlockOf(freeList))
      {
        held, taken := UseOnce(uses[k], kept, held, taken);
      }
    }

    /** A pool's life: it stays valid through any sequence of its own calls and those of other users
        of the heap, and when both they and the pool are gone the block list is what it was. A pool
        whose space wraps around the word size is not used, but the others go on. */
    method Life(size: nat, count: nat, uses: seq<PoolUse>)
      requires heap.Valid() && size < heap.word && count < heap.word
      modifies this, heap, heap.mem
      ensures heap.Valid() && heap.blocks == old(heap.blocks)
    {
      ghost var bs := heap.blocks;
      var status := MemoryPoolCreate(size, count);
      if status == RTOS_OK {
        ghost var kept := Live(heap.blocks);
        var held;
        ghost var taken;
        label created:
        if count * blockSize + 3 < heap.word {
          held, taken := UseAll(uses, kept);
        } else {
          held, taken := OthersRun(heap, OtherCalls(uses));
          StillOwns@created(kept);
        }
        label used:
        OthersLeave(heap, kept, held, taken);
        StillOwns@used(kept);
        DestroyRestores(bs);
      }
    }
  }
}
