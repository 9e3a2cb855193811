/**
  The allocator of src/kernel/memory.c, statement by statement, over the in-band memory of
  HeapMemory.dfy and refining the block-list functions of Blocks.dfy.
*/
module Heap {
  import opened Blocks
  import opened HeapCalls
  import opened HeapMemory
  import opened HeapStats

  const U32: nat := 0x1_0000_0000

  /** memory_stats_t */
  datatype Stats = Stats(
    totalHeapSize: nat, usedHeapSize: int, freeHeapSize: int, largestFreeBlock: nat,
    numAllocations: nat, numFrees: nat, fragmentationPercent: int)

  const NO_STATS := Stats(0, 0, 0, 0, 0, 0, 0)

  /** What the running counters mean: used bytes exactly, free bytes less one header and modulo
      the word size, and the number of live blocks modulo 2^32. */
  ghost predicate StatsAgree(s: Stats, bs: seq<Block>, word: nat, h: HeaderSize)
  {
    && s.totalHeapSize == HEAP_SIZE
    && s.usedHeapSize == h + Bytes(bs, false, h)
    && s.freeHeapSize == SubSize(Bytes(bs, true, h), h, word)
    && s.numAllocations < U32 && s.numFrees < U32
    && (s.numAllocations - s.numFrees) % U32 == Count(bs, false) % U32
  }

  /** What a successful allocation or release adds to the counters. */
  ghost predicate Counted(s: Stats, s': Stats, granted: bool, released: bool) {
    && s'.numAllocations == (if granted then (s.numAllocations + 1) % U32 else s.numAllocations)
    && s'.numFrees == if released then (s.numFrees + 1) % U32 else s.numFrees
  }

  lemma CountedBoth(s: Stats, s': Stats, s'': Stats)
    requires Counted(s, s', true, false) && Counted(s', s'', false, true)
    ensures Counted(s, s'', true, true)
  {
  }

  /** The size_t range: it holds the heap with room to spare. */
  type WordSize = w: nat | w >= U32 witness U32

  function MulSize(a: nat, b: nat, word: WordSize): nat {
    a * b % word
  }

  /** The n cells at p are zero bytes. */
  ghost predicate Zeroed(m: Memory, p: int, n: nat) {
    ByteRange(m, p, n) && forall o :: p <= o < p + n ==> m[o] == Byte(0)
  }

  lemma Remainder(x: nat, word: WordSize)
    ensures x < word ==> x % word == x
  {
  }

  lemma NonzeroProduct(a: nat, b: nat, word: WordSize)
    ensures a == 0 || b == 0 ==> MulSize(a, b, word) == 0
  {
    assert a == 0 || b == 0 ==> a * b == 0;
  }

  /** A block granted for a product modulo the word size has room for all of it exactly if neither
      the product nor its rounding wraps. */
  lemma ProductFits(a: nat, b: nat, word: WordSize, room: nat)
    requires room <= HEAP_SIZE && (MulSize(a, b, word) <= room <==> MulSize(a, b, word) + 3 < word)
    ensures a * b <= room <==> a * b + 3 < word
  {
    Remainder(a * b, word);
  }

  /** Room for the product modulo the word size is room for all of it exactly if it does not wrap. */
  lemma WholeProduct(a: nat, b: nat, word: WordSize, room: nat)
    requires MulSize(a, b, word) <= room <= HEAP_SIZE
    ensures a * b <= room <==> a * b < word
  {
    Remainder(a * b, word);
  }

  function Min(a: nat, b: nat): nat {
    if a < b then a else b
  }

  class Allocator {
    const h: HeaderSize
    const word: WordSize
    const mem: array<Cell>
    /** The magic word that is read where no intact header starts: whatever bytes lie there. */
    const magicOf: (Memory, int) -> bv32
    var heapHead: int
    var memoryInitialized: bool
    var stats: Stats
    ghost var blocks: seq<Block>

    ghost predicate Valid()
      reads this, mem
    {
      && mem.Length == HEAP_SIZE
      && (memoryInitialized ==>
            && heapHead == 0
            && Wf(blocks, h)
            && Stores(mem[..], blocks, h)
            && StatsAgree(stats, blocks, word, h))
      && (!memoryInitialized ==> blocks == [] && forall o :: 0 <= o < mem.Length ==> !mem[o].Head?)
    }

    /** The list is in memory and tiles the heap, but a call is still at work on it. */
    ghost predicate InProgress()
      reads this, mem
    {
      && mem.Length == HEAP_SIZE
      && heapHead == 0
      && Tiles(blocks, h)
      && Aligned(blocks)
      && Stores(mem[..], blocks, h)
    }

    /** A program image starts with a zeroed heap and zeroed statistics. */
    constructor (h: HeaderSize, word: WordSize, magicOf: (Memory, int) -> bv32)
      ensures Valid() && !memoryInitialized && fresh(mem)
      ensures this.h == h && this.word == word && this.magicOf == magicOf
    {
      this.h := h;
      this.magicOf := magicOf;
      this.word := word;
      mem := new Cell[HEAP_SIZE](_ => Byte(0));
      heapHead := NULL;
      memoryInitialized := false;
      stats := NO_STATS;
      blocks := [];
    }

    method WriteHeader(o: int, hdr: Header)
      requires 0 <= o && o + h <= mem.Length
      modifies mem
      ensures Intact(mem[..], o, h) && mem[o].hdr == hdr
      ensures SameOutside(old(mem[..]), mem[..], o, o + h)
    {
      mem[o] := Head(hdr);
      forall k | o < k < o + h {
        mem[k] := Inner;
      }
    }

    method MemoryInit()
      requires Valid()
      modifies this, mem
      ensures Valid() && memoryInitialized
      ensures blocks == if old(memoryInitialized) then old(blocks) else Fresh(h)
      ensures old(memoryInitialized) ==> mem[..] == old(mem[..]) && stats == old(stats)
    {
      if memoryInitialized {
        return;
      }
      heapHead := 0;
      WriteHeader(0, Header(HEAP_SIZE - h, true, NULL, MEMORY_MAGIC));
      blocks := Fresh(h);
      stats := Stats(HEAP_SIZE, h, mem[heapHead].hdr.size, mem[heapHead].hdr.size, 0, 0, 0);
      memoryInitialized := true;
      assert Listed(blocks, blocks[0].off);
      SmallSums(blocks[0], blocks[0], true, h);
      SmallSums(blocks[0], blocks[0], false, h);
      assert HeaderStored(mem[..], blocks, 0, h);
    }

    method FindBestFit(size: nat) returns (bestFit: int)
      requires InProgress()
      ensures bestFit == if BestFit(blocks, size) == -1 then NULL else blocks[BestFit(blocks, size)].off
    {
      var current := heapHead;
      bestFit := NULL;
      var minDiff := word - 1;
      ghost var i := 0;
      while current != NULL
        invariant 0 <= i <= |blocks|
        invariant current == if i < |blocks| then blocks[i].off else NULL
        invariant var k := BestFit(blocks[..i], size);
                  if k == -1 then bestFit == NULL && minDiff == word - 1
                  else bestFit == blocks[k].off && Fits(blocks[k], size) && minDiff == blocks[k].size - size
        decreases |blocks| - i
      {
        assert HeaderStored(mem[..], blocks, i, h);
        BlockInHeap(blocks, h, i);
        assert blocks[..i + 1][..i] == blocks[..i];
        var hdr := mem[current].hdr;
        if hdr.isFree && hdr.size >= size {
          var diff := hdr.size - size;
          if diff < minDiff {
            minDiff := diff;
            bestFit := current;
          }
        }
        current := hdr.next;
        i := i + 1;
      }
      assert blocks[..i] == blocks;
    }

    method SplitBlock(block: int, size: nat, ghost k: nat)
      requires InProgress() && k < |blocks| && block == blocks[k].off
      requires Fits(blocks[k], size) && size % 4 == 0
      modifies this`blocks, mem
      ensures InProgress() && blocks == Split(old(blocks), k, size, h)
      ensures SamePayloads(old(mem[..]), mem[..], Live(old(blocks)), h)
    {
      HeadIsStored(k);
      LiveInHeap(blocks, h);
      if mem[block].hdr.size >= size + h + 32 {
        CutBlock(block, size, k);
      }
    }

    method CutBlock(block: int, size: nat, ghost k: nat)
      requires InProgress() && k < |blocks| && block == blocks[k].off
      requires blocks[k].free && Splits(blocks[k], size, h) && size % 4 == 0
      modifies this`blocks, mem
      ensures InProgress() && blocks == Split(old(blocks), k, size, h)
      ensures SamePayloads(old(mem[..]), mem[..], Live(old(blocks)), h)
    {
      WriteBoth(block, size, k);
      SplitWrite(old(mem[..]), mem[..], blocks, k, size, h);
      SplitAligned(blocks, k, size, h);
      blocks := Split(blocks, k, size, h);
    }

    /** The header writes of split_block. */
    method WriteBoth(block: int, size: nat, ghost k: nat)
      requires InProgress() && k < |blocks| && block == blocks[k].off
      requires blocks[k].free && Splits(blocks[k], size, h)
      modifies mem
      ensures SplitWritten(old(mem[..]), mem[..], blocks, k, size, h)
    {
      HeadIsStored(k);
      BlockInHeap(blocks, h, k);
      var newBlock := block + h + size;
      var hdr := mem[block].hdr;
      WriteHeader(newBlock, Header(hdr.size - size - h, true, hdr.next, MEMORY_MAGIC));
      mem[block] := Head(mem[block].hdr.(size := size));
      mem[block] := Head(mem[block].hdr.(next := newBlock));
    }

    /** Merge with the next block, inside the loop of merge_free_blocks. */
    method AbsorbNext(current: int, ghost i: nat)
      requires InProgress() && i + 1 < |blocks| && blocks[i].free && blocks[i + 1].free
      requires current == blocks[i].off
      modifies this`blocks, mem
      ensures InProgress() && blocks == Join(old(blocks), i, h)
      ensures current < mem.Length && mem[current] == Head(HeaderOf(blocks, i))
      ensures Live(blocks) == Live(old(blocks))
      ensures SamePayloads(old(mem[..]), mem[..], Live(blocks), h)
      ensures OnlyReleases(old(mem[..]), mem[..])
    {
      HeadIsStored(i);
      HeadIsStored(i + 1);
      JoinTiles(blocks, i, h);
      var next := mem[current].hdr.next;
      mem[current] := Head(mem[current].hdr.(size := mem[current].hdr.size + h + mem[next].hdr.size));
      mem[current] := Head(mem[current].hdr.(next := mem[next].hdr.next));
      assert mem[..] == old(mem[..])[current := Head(HeaderOf(Join(blocks, i, h), i))];
      JoinWrite(old(mem[..]), blocks, i, h);
      JoinKeepsLive(blocks, i, h);
      blocks := Join(blocks, i, h);
    }

    method MergeFreeBlocks()
      requires InProgress()
      modifies this`blocks, mem
      ensures InProgress() && blocks == Coalesce(old(blocks), 0, h)
      ensures Live(blocks) == Live(old(blocks))
      ensures SamePayloads(old(mem[..]), mem[..], Live(blocks), h)
      ensures OnlyReleases(old(mem[..]), mem[..])
    {
      var current := heapHead;
      ghost var i := 0;
      LiveInHeap(blocks, h);
      HeadIsStored(0);
      while current != NULL && mem[current].hdr.next != NULL
        invariant InProgress()
        invariant 0 <= i < |blocks| && current == blocks[i].off < mem.Length
        invariant mem[current] == Head(HeaderOf(blocks, i))
        invariant Coalesce(blocks, i, h) == Coalesce(old(blocks), 0, h)
        invariant Live(blocks) == Live(old(blocks))
        invariant SamePayloads(old(mem[..]), mem[..], Live(blocks), h)
        invariant OnlyReleases(old(mem[..]), mem[..])
        decreases |blocks| - i
      {
        var next := mem[current].hdr.next;
        HeadIsStored(i + 1);
        if mem[current].hdr.isFree && mem[next].hdr.isFree {
          ghost var before := mem[..];
          AbsorbNext(current, i);
          SamePayloadsTrans(old(mem[..]), before, mem[..], Live(blocks), Live(blocks), Live(blocks), h);
        } else {
          current := next;
          i := i + 1;
        }
      }
    }

    lemma HeadIsStored(i: nat)
      requires InProgress() && i < |blocks|
      ensures blocks[i].off + h <= mem.Length
      ensures Intact(mem[..], blocks[i].off, h) && mem[blocks[i].off] == Head(HeaderOf(blocks, i))
    {
      assert HeaderStored(mem[..], blocks, i, h);
    }

    // -------------------------------------------------------------------------------------------
    // The allocator's calls
    // -------------------------------------------------------------------------------------------

    /** p is what rtos_malloc returned for a block that is still in use. */
    ghost predicate LivePtr(p: int)
      reads this
    {
      p >= h && IndexOf(blocks, p - h) != -1 && !blocks[IndexOf(blocks, p - h)].free
    }

    ghost function BlockOf(p: int): (b: Block)
      requires LivePtr(p)
      reads this
      ensures b in Live(blocks) && Payload(b, h) == p
    {
      blocks[IndexOf(blocks, p - h)]
    }

    lemma PtrOfLive(b: Block)
      requires Valid() && b in Live(blocks)
      ensures LivePtr(Payload(b, h)) && BlockOf(Payload(b, h)) == b
    {
      var j :| 0 <= j < |blocks| && blocks[j] == b;
      OffsetIsIdentity(blocks, h, j, IndexOf(blocks, b.off));
    }

    /** Only the live blocks matter for what the list is. */
    lemma SameLive(bs: seq<Block>)
      requires Valid() && memoryInitialized && Wf(bs, h) && Live(blocks) == Live(bs)
      ensures blocks == bs
    {
      Canonical(blocks, bs, h);
    }

    /** ptr is a live block that was not live before, the only such block, and holds n bytes. */
    ghost predicate NewBlock(bs: seq<Block>, ptr: int, n: nat)
      reads this
    {
      && LivePtr(ptr)
      && BlockOf(ptr) !in Live(bs)
      && Live(blocks) == Live(bs) + {BlockOf(ptr)}
      && n <= BlockOf(ptr).size < n + h + 32
    }

    lemma GrantedPtr(bs: seq<Block>, k: nat, n: nat)
      requires Valid() && memoryInitialized && Wf(bs, h) && k < |bs| && Fits(bs[k], n) && blocks == Grant(bs, k, n, h)
      ensures NewBlock(bs, Payload(bs[k], h), n) && BlockOf(Payload(bs[k], h)) == Granted(bs[k], n, h)
    {
      GrantAddsOne(bs, k, n, h);
      assert Granted(bs[k], n, h) in Live(blocks);
      PtrOfLive(Granted(bs[k], n, h));
    }

    /** The index of the block rtos_malloc grants for a request, or -1. */
    ghost function Choice(size: nat): (k: int)
      reads this
      ensures k == -1 || 0 <= k < |blocks|
    {
      if !memoryInitialized || size == 0 then -1 else BestFit(blocks, AlignSize(size, word))
    }

    /** The block a request that can be served is going to get. */
    ghost function Offer(size: nat): Block
      requires Choice(size) != -1
      reads this
    {
      Granted(blocks[Choice(size)], AlignSize(size, word), h)
    }

    /** The list has a free block for this request. */
    ghost predicate Serves(bs: seq<Block>, size: nat) {
      size > 0 && exists i :: 0 <= i < |bs| && Fits(bs[i], AlignSize(size, word))
    }

    /** It has one for the first request, and what that leaves has one for the second. */
    ghost predicate ServesBoth(bs: seq<Block>, size: nat, size': nat) {
      Serves(bs, size) && Serves(HeapCalls.Malloc(bs, AlignSize(size, word), h), size')
    }

    /** When rtos_malloc has a block to give. */
    lemma ChoiceServes(size: nat)
      requires Valid()
      ensures Choice(size) != -1 <==> Serves(blocks, size)
    {
      BestFitChooses(blocks, AlignSize(size, word));
      if BestFit(blocks, AlignSize(size, word)) != -1 {
        assert Fits(blocks[BestFit(blocks, AlignSize(size, word))], AlignSize(size, word));
      }
    }

    /** On a fresh heap two requests succeed exactly if the first leaves a block for the second, that
        is, room for another header and at least 32 bytes, and for the second request. */
    lemma FreshServesBoth(size: nat, size': nat)
      ensures var a, b, room := AlignSize(size, word), AlignSize(size', word), HEAP_SIZE - h;
              ServesBoth(Fresh(h), size, size') <==>
              size > 0 && size' > 0 && a + h + 32 <= room && a + h + b <= room
    {
      var bs, a, b := Fresh(h), AlignSize(size, word), AlignSize(size', word);
      assert bs[..0] == [];
      if a <= HEAP_SIZE - h {
        assert Fits(bs[0], a) && BestFit(bs, a) == 0;
        GrantSize(bs, 0, a, h);
        var ms := HeapCalls.Malloc(bs, a, h);
        if a + h + 32 <= HEAP_SIZE - h {
          assert ms == [Block(0, a, false), Block(h + a, HEAP_SIZE - h - a - h, true)];
          assert Fits(ms[1], b) <==> a + h + b <= HEAP_SIZE - h;
        } else {
          assert ms == [Block(0, HEAP_SIZE - h, false)];
        }
      }
    }

    method RtosMalloc(size: nat) returns (ptr: int)
      requires Valid()
      modifies this, mem
      ensures Valid() && memoryInitialized == old(memoryInitialized)
      ensures old(Choice(size)) == -1 ==>
                ptr == NULL && blocks == old(blocks) && mem[..] == old(mem[..]) && stats == old(stats)
      ensures old(Choice(size)) != -1 ==>
                && blocks == Grant(old(blocks), old(Choice(size)), AlignSize(size, word), h)
                && ptr == Payload(old(blocks[Choice(size)]), h)
      ensures ptr != NULL ==> NewBlock(old(blocks), ptr, AlignSize(size, word)) && BlockOf(ptr) == old(Offer(size))
      ensures ptr != NULL ==> (size <= BlockOf(ptr).size <==> size + 3 < word)
      ensures ptr != NULL ==> Counted(old(stats), stats, true, false)
      ensures SamePayloads(old(mem[..]), mem[..], Live(old(blocks)), h)
    {
      LiveInHeapIfAny();
      if !memoryInitialized || size == 0 {
        return NULL;
      }
      var aligned := AlignSize(size, word);
      ptr := Take(aligned, Choice(size));
      if ptr != NULL {
        LivePtrMeaning(ptr);
        Covered(size, aligned, BlockOf(ptr).size);
      }
    }

    /** Room for the rounded size is room for the request exactly if the rounding did not wrap. */
    lemma Covered(size: nat, aligned: nat, room: nat)
      requires aligned == AlignSize(size, word) && aligned <= room <= HEAP_SIZE
      ensures size <= room <==> size + 3 < word
    {
    }

    /** The critical section of rtos_malloc, for an aligned request; k is the block it chooses. */
    method Take(n: nat, ghost k: int) returns (ptr: int)
      requires Valid() && memoryInitialized && n % 4 == 0 && k == BestFit(blocks, n)
      modifies this, mem
      ensures Valid() && memoryInitialized
      ensures k == -1 ==>
                ptr == NULL && blocks == old(blocks) && mem[..] == old(mem[..]) && stats == old(stats)
      ensures k != -1 ==>
                && blocks == Grant(old(blocks), k, n, h) && ptr == Payload(old(blocks)[k], h)
                && NewBlock(old(blocks), ptr, n) && BlockOf(ptr) == Granted(old(blocks)[k], n, h)
                && Counted(old(stats), stats, true, false)
      ensures SamePayloads(old(mem[..]), mem[..], Live(old(blocks)), h)
    {
      LiveInHeap(blocks, h);
      BestFitChooses(blocks, n);
      var block := FindBestFit(n);
      if block == NULL {
        return NULL;
      }
      ghost var bs := blocks;
      SplitBlock(block, n, k);
      ghost var split := mem[..];
      MarkUsed(block, bs, k, n);
      SamePayloadsTrans(old(mem[..]), split, mem[..], Live(bs), Live(bs), Live(bs), h);
      var taken := mem[block].hdr.size + h;
      stats := stats.(numAllocations := (stats.numAllocations + 1) % U32);
      stats := stats.(usedHeapSize := AddSize(stats.usedHeapSize, taken, word));
      stats := stats.(freeHeapSize := SubSize(stats.freeHeapSize, taken, word));
      StatsAfterGrant(old(stats), stats, bs, k, n);
      ptr := block + h;
      GrantedPtr(bs, k, n);
    }

    /** block->is_free = false */
    method MarkUsed(block: int, ghost bs: seq<Block>, ghost k: nat, ghost n: nat)
      requires InProgress() && Wf(bs, h) && k < |bs| && Fits(bs[k], n) && n % 4 == 0
      requires blocks == Split(bs, k, n, h) && block == bs[k].off
      modifies this`blocks, mem
      ensures InProgress() && blocks == Grant(bs, k, n, h) && Wf(blocks, h)
      ensures block < mem.Length && mem[block].Head? && mem[block].hdr.size == Granted(bs[k], n, h).size
      ensures SamePayloads(old(mem[..]), mem[..], Live(bs), h)
    {
      GrantIsSplitAndMark(bs, k, n, h);
      GrantIsWf(bs, k, n, h);
      SplitKeepsLive(bs, k, n, h);
      HeadIsStored(k);
      ghost var split := mem[..];
      mem[block] := Head(mem[block].hdr.(isFree := false));
      HeaderWrite(split, blocks, k, blocks[k].(free := false), mem[block].hdr, h);
      blocks := Grant(bs, k, n, h);
    }

    lemma LiveInHeapIfAny()
      requires Valid()
      ensures SamePayloads(mem[..], mem[..], Live(blocks), h)
    {
      if memoryInitialized {
        LiveInHeap(blocks, h);
      }
    }

    lemma StatsAfterGrant(s: Stats, s': Stats, bs: seq<Block>, k: nat, n: nat)
      requires Wf(bs, h) && k < |bs| && Fits(bs[k], n) && n % 4 == 0 && StatsAgree(s, bs, word, h)
      requires var taken := Granted(bs[k], n, h).size + h;
               && s' == s.(numAllocations := (s.numAllocations + 1) % U32,
                           usedHeapSize := AddSize(s.usedHeapSize, taken, word),
                           freeHeapSize := SubSize(s.freeHeapSize, taken, word))
      ensures StatsAgree(s', Grant(bs, k, n, h), word, h)
    {
      var gs, taken := Grant(bs, k, n, h), Granted(bs[k], n, h).size + h;
      GrantCounts(bs, k, n, h);
      GrantIsWf(bs, k, n, h);
      BytesAreConserved(gs, h);
      CountUp(s.numAllocations, s.numFrees, Count(bs, false));
    }

    /** ptr is not null and an intact header lies before it. */
    ghost predicate HasHeader(ptr: int)
      reads this, mem
    {
      ptr != NULL && Intact(mem[..], ptr - h, h)
    }

    /** The magic word tells headers from other bytes: what is not a header does not look like one. */
    ghost predicate MagicTells(ptr: int)
      reads this, mem
    {
      memoryInitialized && ptr != NULL ==>
        Intact(mem[..], ptr - h, h) || magicOf(mem[..], ptr - h) != MEMORY_MAGIC
    }

    method RtosFree(ptr: int)
      requires Valid()
      requires MagicTells(ptr)
      modifies this, mem
      ensures Valid() && memoryInitialized == old(memoryInitialized)
      ensures blocks == if old(HasHeader(ptr)) then HeapCalls.Free(old(blocks), ptr - h, h) else old(blocks)
      ensures !old(HasHeader(ptr)) || old(ReadsAsFree(mem[..], ptr - h, h)) ==>
                blocks == old(blocks) && mem[..] == old(mem[..]) && stats == old(stats)
      ensures old(HasHeader(ptr)) ==> ReadsAsFree(mem[..], ptr - h, h)
      ensures old(LivePtr(ptr)) ==>
                Live(blocks) == Live(old(blocks)) - {old(BlockOf(ptr))} && Counted(old(stats), stats, false, true)
      ensures OnlyReleases(old(mem[..]), mem[..])
      ensures SamePayloads(old(mem[..]), mem[..], Live(blocks), h)
    {
      LiveInHeapIfAny();
      if !memoryInitialized || ptr == NULL {
        return;
      }
      var block := ptr - h;
      var ok := PassesChecks(block);
      if !ok {
        return;
      }
      ReleaseBlock(block, IndexOf(blocks, block));
    }

    /** The critical section of rtos_free after its checks. */
    method ReleaseBlock(block: int, ghost k: int)
      requires Valid() && memoryInitialized && 0 <= k < |blocks| && block == blocks[k].off && !blocks[k].free
      modifies this, mem
      ensures Valid() && memoryInitialized
      ensures blocks == Release(old(blocks), k, h) && Live(blocks) == Live(old(blocks)) - {old(blocks)[k]}
      ensures ReadsAsFree(mem[..], block, h) && Counted(old(stats), stats, false, true)
      ensures OnlyReleases(old(mem[..]), mem[..])
      ensures SamePayloads(old(mem[..]), mem[..], Live(blocks), h)
    {
      ghost var bs := blocks;
      MarkReleased(block, k);
      ghost var marked := mem[..];
      stats := stats.(numFrees := (stats.numFrees + 1) % U32);
      stats := stats.(usedHeapSize := SubSize(stats.usedHeapSize, mem[block].hdr.size + h, word));
      stats := stats.(freeHeapSize := AddSize(stats.freeHeapSize, mem[block].hdr.size + h, word));
      StatsAfterRelease(old(stats), stats, bs, k);
      ReleaseRemovesOne(bs, k, h);
      MergeFreeBlocks();
      SamePayloadsTrans(old(mem[..]), marked, mem[..], Live(bs), Live(blocks), Live(blocks), h);
    }

    /** The checks of the magic word and of the free flag at the head of rtos_free. */
    method PassesChecks(block: int) returns (ok: bool)
      requires Valid() && memoryInitialized && (Intact(mem[..], block, h) || magicOf(mem[..], block) != MEMORY_MAGIC)
      ensures ok <==> Intact(mem[..], block, h) && !mem[block].hdr.isFree
      ensures ok <==> LivePtr(block + h)
    {
      if LivePtr(block + h) {
        HeadIsStored(IndexOf(blocks, block));
      }
      var intact := Intact(mem[..], block, h);
      var magic := if intact then mem[block].hdr.magic else magicOf(mem[..], block);
      if intact {
        FreeFindsHeader(block);
      }
      if magic != MEMORY_MAGIC {
        return false;
      }
      return !mem[block].hdr.isFree;
    }

    /** block->is_free = true */
    method MarkReleased(block: int, ghost k: nat)
      requires InProgress() && k < |blocks| && block == blocks[k].off && !blocks[k].free
      modifies this`blocks, mem
      ensures InProgress() && blocks == MarkFree(old(blocks), k)
      ensures block < mem.Length && mem[block].Head?
      ensures mem[block].hdr.isFree && mem[block].hdr.size == blocks[k].size
      ensures Intact(mem[..], block, h) && mem[block].hdr.magic == MEMORY_MAGIC
      ensures OnlyReleases(old(mem[..]), mem[..])
      ensures SamePayloads(old(mem[..]), mem[..], Live(old(blocks)), h)
    {
      HeadIsStored(k);
      ghost var before := mem[..];
      mem[block] := Head(mem[block].hdr.(isFree := true));
      HeaderWrite(before, blocks, k, blocks[k].(free := true), mem[block].hdr, h);
      forall j | 0 <= j < |blocks| - 1 ensures Adjacent(MarkFree(blocks, k), j, h) {
        assert Adjacent(blocks, j, h);
      }
      blocks := MarkFree(blocks, k);
      assert HeaderStored(mem[..], blocks, k, h);
    }

    /** An undamaged header is either a listed block, or one long since absorbed and free. */
    lemma {:induction false} FreeFindsHeader(block: int)
      requires Valid() && memoryInitialized && Intact(mem[..], block, h)
      ensures mem[block].hdr.magic == MEMORY_MAGIC
      ensures var k := IndexOf(blocks, block);
              if k == -1 then mem[block].hdr.isFree else mem[block].hdr == HeaderOf(blocks, k)
    {
      var k := IndexOf(blocks, block);
      if k != -1 {
        HeadIsStored(k);
      }
    }

    /** memset(ptr, v, n) on a live payload. */
    method MemSet(ptr: int, v: bv8, n: nat)
      requires Valid() && LivePtr(ptr) && n <= BlockOf(ptr).size
      modifies mem
      ensures Valid()
      ensures SameOutside(old(mem[..]), mem[..], ptr, ptr + n)
      ensures forall o :: ptr <= o < ptr + n && o < mem.Length ==> mem[o] == Byte(v)
      ensures SamePayloads(old(mem[..]), mem[..], Live(blocks) - {BlockOf(ptr)}, h)
    {
      LivePtrMeaning(ptr);
      ghost var k := IndexOf(blocks, ptr - h);
      BlockInHeap(blocks, h, k);
      forall o | ptr <= o < ptr + n {
        mem[o] := Byte(v);
      }
      PayloadHeadsAllStale(old(mem[..]), blocks, k, h);
      PayloadWrite(old(mem[..]), mem[..], blocks, k, h);
    }

    /** One store through a live pointer: ptr[off] = v. */
    method StoreByte(ptr: int, off: nat, v: bv8)
      requires Valid() && LivePtr(ptr) && off < BlockOf(ptr).size
      modifies mem
      ensures Valid() && ptr + off < mem.Length
      ensures mem[..] == old(mem[..])[ptr + off := Byte(v)]
      ensures SamePayloads(old(mem[..]), mem[..], Live(blocks) - {BlockOf(ptr)}, h)
    {
      LivePtrMeaning(ptr);
      ghost var k := IndexOf(blocks, ptr - h);
      mem[ptr + off] := Byte(v);
      PayloadHeadsAllStale(old(mem[..]), blocks, k, h);
      PayloadWrite(old(mem[..]), mem[..], blocks, k, h);
    }

    /** memcpy(ptr + off, data, |data|) from memory outside the heap. */
    method CopyIn(ptr: int, off: nat, data: seq<bv8>)
      requires Valid() && LivePtr(ptr) && off + |data| <= BlockOf(ptr).size
      modifies mem
      ensures Valid() && ptr + off + |data| <= mem.Length
      ensures SameOutside(old(mem[..]), mem[..], ptr + off, ptr + off + |data|)
      ensures forall o :: ptr + off <= o < ptr + off + |data| ==> mem[o] == Byte(data[o - (ptr + off)])
      ensures SamePayloads(old(mem[..]), mem[..], Live(blocks) - {BlockOf(ptr)}, h)
    {
      LivePtrMeaning(ptr);
      ghost var k := IndexOf(blocks, ptr - h);
      forall o | ptr + off <= o < ptr + off + |data| {
        mem[o] := Byte(data[o - (ptr + off)]);
      }
      PayloadHeadsAllStale(old(mem[..]), blocks, k, h);
      PayloadWrite(old(mem[..]), mem[..], blocks, k, h);
    }

    /** memcpy(out, ptr + off, n) to memory outside the heap. */
    method CopyOut(ptr: int, off: nat, n: nat) returns (data: seq<bv8>)
      requires Valid() && LivePtr(ptr) && off + n <= BlockOf(ptr).size
      requires ByteRange(mem[..], ptr + off, n)
      ensures |data| == n
      ensures forall o :: ptr + off <= o < ptr + off + n ==> mem[o] == Byte(data[o - (ptr + off)])
    {
      var cells := mem[ptr + off..ptr + off + n];
      data := seq(n, i requires 0 <= i < |cells| && cells[i].Byte? => cells[i].b);
    }

    /** memcpy(dst, src, n) between two live payloads, whatever the bytes are. */
    method MemCopy(dst: int, src: int, n: nat)
      requires Valid() && LivePtr(dst) && LivePtr(src) && dst != src
      requires n <= BlockOf(dst).size && n <= BlockOf(src).size
      modifies mem
      ensures Valid()
      ensures SameOutside(old(mem[..]), mem[..], dst, dst + n)
      ensures Copied(old(mem[..]), src, mem[..], dst, n)
      ensures SamePayloads(old(mem[..]), mem[..], Live(blocks) - {BlockOf(dst)}, h)
    {
      LivePtrMeaning(dst);
      LivePtrMeaning(src);
      ghost var d, s := IndexOf(blocks, dst - h), IndexOf(blocks, src - h);
      BlockInHeap(blocks, h, d);
      BlockInHeap(blocks, h, s);
      PayloadHeadsAllStale(old(mem[..]), blocks, d, h);
      PayloadHeadsAllStale(old(mem[..]), blocks, s, h);
      forall o | dst <= o < dst + n {
        mem[o] := mem[src + (o - dst)];
      }
      PayloadWrite(old(mem[..]), mem[..], blocks, d, h);
    }

    lemma LivePtrMeaning(p: int)
      requires Valid() && LivePtr(p)
      ensures memoryInitialized && p + BlockOf(p).size <= HEAP_SIZE
      ensures Intact(mem[..], p - h, h) && mem[p - h].hdr.size == BlockOf(p).size
    {
      HeadIsStored(IndexOf(blocks, p - h));
      BlockInHeap(blocks, h, IndexOf(blocks, p - h));
    }

    /** The bytes asked for are num * size modulo the word size. The memset stays inside the block
        except for a product within 3 of the word size, and it covers all of num * size exactly if
        the product does not wrap. */
    method RtosCalloc(num: nat, size: nat) returns (ptr: int)
      requires Valid() && num < word && size < word
      requires MulSize(num, size, word) + 3 < word || Choice(MulSize(num, size, word)) == -1
      modifies this, mem
      ensures Valid() && memoryInitialized == old(memoryInitialized)
      ensures var total := MulSize(num, size, word);
              && Allotted(ptr, total, old(Choice(total)), old(blocks))
              && (ptr == NULL ==> mem[..] == old(mem[..]) && stats == old(stats))
              && (ptr != NULL ==>
                    && NewBlock(old(blocks), ptr, AlignSize(total, word)) && Counted(old(stats), stats, true, false)
                    && (num * size <= BlockOf(ptr).size <==> num * size < word) && Zeroed(mem[..], ptr, total))
      ensures SamePayloads(old(mem[..]), mem[..], Live(old(blocks)), h)
    {
      var totalSize := MulSize(num, size, word);
      ptr := ClearedBlock(totalSize);
      if ptr != NULL {
        LivePtrMeaning(ptr);
        WholeProduct(num, size, word, BlockOf(ptr).size);
      }
    }

    /** The outcome of an allocation: null and nothing, or the chosen block. */
    ghost predicate Allotted(ptr: int, n: nat, k: int, bs: seq<Block>)
      requires k == -1 || 0 <= k < |bs|
      reads this
    {
      if k == -1 then ptr == NULL && blocks == bs
      else ptr == Payload(bs[k], h) && LivePtr(ptr) && blocks == Grant(bs, k, AlignSize(n, word), h)
    }

    method ClearedBlock(total: nat) returns (ptr: int)
      requires Valid() && (total + 3 < word || Choice(total) == -1)
      modifies this, mem
      ensures Valid() && memoryInitialized == old(memoryInitialized)
      ensures Allotted(ptr, total, old(Choice(total)), old(blocks))
      ensures ptr == NULL ==> mem[..] == old(mem[..]) && stats == old(stats)
      ensures ptr != NULL ==>
                NewBlock(old(blocks), ptr, AlignSize(total, word)) && Counted(old(stats), stats, true, false)
      ensures ptr != NULL ==> total <= BlockOf(ptr).size && Zeroed(mem[..], ptr, total)
      ensures SamePayloads(old(mem[..]), mem[..], Live(old(blocks)), h)
    {
      ghost var live := Live(blocks);
      ptr := RtosMalloc(total);
      if ptr != NULL {
        ghost var granted, others := mem[..], Live(blocks) - {BlockOf(ptr)};
        MemSet(ptr, 0, total);
        SamePayloadsTrans(old(mem[..]), granted, mem[..], live, others, live, h);
        LivePtrMeaning(ptr);
      }
    }

    /** The memcpy of a growing realloc stays inside the block it gets: always so unless the size is
        within 3 of the word size, when that block may be smaller than the old one. */
    ghost predicate CopyFits(ptr: int, newSize: nat)
      requires LivePtr(ptr)
      reads this
    {
      newSize <= BlockOf(ptr).size || Choice(newSize) == -1 || BlockOf(ptr).size <= Offer(newSize).size
    }

    lemma CopyFitsMeaning(ptr: int, newSize: nat)
      requires Valid() && LivePtr(ptr) && newSize + 3 < word
      ensures CopyFits(ptr, newSize)
    {
      if Choice(newSize) != -1 {
        BestFitChooses(blocks, AlignSize(newSize, word));
        AlignSizeMeaning(newSize, word);
      }
    }

    /** The block of p takes the place of b among the live ones. */
    ghost predicate Moved(live: set<Block>, b: Block, p: int)
      requires LivePtr(p)
      reads this
    {
      Live(blocks) == live - {b} + {BlockOf(p)} && BlockOf(p) !in live - {b}
    }

    method RtosRealloc(ptr: int, newSize: nat) returns (newPtr: int)
      requires Valid() && (ptr == NULL || (LivePtr(ptr) && CopyFits(ptr, newSize)))
      modifies this, mem
      ensures Valid() && memoryInitialized == old(memoryInitialized)
      ensures ptr != NULL ==> blocks == HeapCalls.Realloc(old(blocks), ptr - h, newSize, word, h)
      ensures ptr == NULL ==> Allotted(newPtr, newSize, old(Choice(newSize)), old(blocks))
      ensures ptr != NULL ==>
                (newPtr == NULL <==>
                   newSize == 0 || (newSize > old(BlockOf(ptr)).size && old(Choice(newSize)) == -1))
      ensures newPtr != NULL ==> LivePtr(newPtr) && (newSize <= BlockOf(newPtr).size <==> newSize + 3 < word)
      ensures ptr != NULL && newPtr != NULL ==>
                && Copied(old(mem[..]), ptr, mem[..], newPtr, Min(old(BlockOf(ptr).size), newSize))
                && Moved(Live(old(blocks)), old(BlockOf(ptr)), newPtr)
      ensures ptr != NULL && 0 < newSize <= old(BlockOf(ptr).size) ==>
                newPtr == ptr && blocks == old(blocks) && mem[..] == old(mem[..]) && stats == old(stats)
      ensures ptr != NULL && newPtr != NULL && newSize > old(BlockOf(ptr).size) ==>
                newPtr != ptr && Counted(old(stats), stats, true, true)
      ensures ptr != NULL && newSize == 0 ==> Live(blocks) == Live(old(blocks)) - {old(BlockOf(ptr))}
      ensures newPtr == NULL && (ptr == NULL || newSize > 0) ==>
                blocks == old(blocks) && mem[..] == old(mem[..])
      ensures SamePayloads(old(mem[..]), mem[..],
                           Live(old(blocks)) - (if ptr == NULL then {} else {old(BlockOf(ptr))}), h)
    {
      LiveInHeapIfAny();
      if ptr == NULL {
        newPtr := RtosMalloc(newSize);
        return;
      }
      LivePtrMeaning(ptr);
      ghost var b := BlockOf(ptr);
      if newSize == 0 {
        RtosFree(ptr);
        return NULL;
      }
      var block := ptr - h;
      if newSize <= mem[block].hdr.size {
        return ptr;
      }
      newPtr := MoveTo(ptr, newSize);
    }

    /** The growing path of rtos_realloc: allocate, copy the old bytes, release the old block. */
    method MoveTo(ptr: int, newSize: nat) returns (newPtr: int)
      requires Valid() && LivePtr(ptr) && BlockOf(ptr).size < newSize && CopyFits(ptr, newSize)
      modifies this, mem
      ensures Valid() && memoryInitialized == old(memoryInitialized)
      ensures newPtr == NULL <==> old(Choice(newSize)) == -1
      ensures newPtr == NULL ==> blocks == old(blocks) && mem[..] == old(mem[..])
      ensures newPtr != NULL ==>
                && blocks ==
                   HeapCalls.Free(Grant(old(blocks), old(Choice(newSize)), AlignSize(newSize, word), h), ptr - h, h)
                && LivePtr(newPtr) && (newSize <= BlockOf(newPtr).size <==> newSize + 3 < word)
                && Copied(old(mem[..]), ptr, mem[..], newPtr, old(BlockOf(ptr).size))
                && Moved(Live(old(blocks)), old(BlockOf(ptr)), newPtr)
                && newPtr != ptr && Counted(old(stats), stats, true, true)
      ensures SamePayloads(old(mem[..]), mem[..], Live(old(blocks)) - {old(BlockOf(ptr))}, h)
    {
      ghost var b, live, m := BlockOf(ptr), Live(blocks), mem[..];
      newPtr := RtosMalloc(newSize);
      if newPtr == NULL {
        return;
      }
      PtrOfLive(b);
      ghost var granted, g, grantedStats := mem[..], BlockOf(newPtr), stats;
      LivePtrMeaning(ptr);
      CopyAndRelease(newPtr, ptr);
      assert SamePayload(m, granted, b, h);
      Replaced(live, b, g);
      CountedBoth(old(stats), grantedStats, stats);
      SamePayloadsTrans(m, granted, mem[..], live, live + {g} - {b, g}, live - {b}, h);
    }

    lemma Replaced(live: set<Block>, b: Block, g: Block)
      requires g !in live
      ensures b in live ==> live + {g} - {b} == live - {b} + {g}
      ensures live - {b} <= live + {g} - {b, g}
    {
    }

    lemma CopiedStays(m: Memory, m': Memory, m'': Memory, src: int, dst: int, n: nat, g: Block)
      requires Copied(m, src, m', dst, n) && dst == Payload(g, h) && n <= g.size
      requires End(g, h) <= |m'| == |m''| && SamePayload(m', m'', g, h)
      ensures Copied(m, src, m'', dst, n)
    {
    }

    method CopyAndRelease(dst: int, src: int)
      requires Valid() && LivePtr(dst) && LivePtr(src) && dst != src
      requires BlockOf(src).size <= BlockOf(dst).size
      modifies this, mem
      ensures Valid() && memoryInitialized == old(memoryInitialized)
      ensures blocks == HeapCalls.Free(old(blocks), src - h, h)
      ensures LivePtr(dst) && BlockOf(dst) == old(BlockOf(dst))
      ensures Live(blocks) == Live(old(blocks)) - {old(BlockOf(src))} && Counted(old(stats), stats, false, true)
      ensures Copied(old(mem[..]), src, mem[..], dst, old(BlockOf(src).size))
      ensures SamePayloads(old(mem[..]), mem[..], Live(old(blocks)) - {old(BlockOf(src)), old(BlockOf(dst))}, h)
    {
      ghost var b, g, live := BlockOf(src), BlockOf(dst), Live(blocks);
      LivePtrMeaning(src);
      MemCopy(dst, src, mem[src - h].hdr.size);
      ghost var copied := mem[..];
      LivePtrMeaning(src);
      RtosFree(src);
      assert g in Live(blocks);
      PtrOfLive(g);
      CopiedStays(old(mem[..]), copied, mem[..], src, dst, b.size, g);
      SamePayloadsTrans(old(mem[..]), copied, mem[..], live - {g}, live - {b}, live - {b, g}, h);
    }

    // -------------------------------------------------------------------------------------------
    // Statistics
    // -------------------------------------------------------------------------------------------

    method CalculateFragmentation(s: Stats) returns (s': Stats)
      requires Valid() && memoryInitialized
      ensures s' == s.(largestFreeBlock := LargestFree(blocks), fragmentationPercent := Fragmentation(blocks))
    {
      var current := heapHead;
      var largestFree, totalFree := 0, 0;
      ghost var i := 0;
      while current != NULL
        invariant 0 <= i <= |blocks|
        invariant current == if i < |blocks| then blocks[i].off else NULL
        invariant largestFree == LargestFree(blocks[..i]) && totalFree == TotalFree(blocks[..i])
        decreases |blocks| - i
      {
        HeadIsStored(i);
        assert blocks[..i + 1][..i] == blocks[..i];
        var hdr := mem[current].hdr;
        if hdr.isFree {
          totalFree := totalFree + hdr.size;
          if hdr.size > largestFree {
            largestFree := hdr.size;
          }
        }
        current := hdr.next;
        i := i + 1;
      }
      assert blocks[..i] == blocks;
      s' := s.(largestFreeBlock := largestFree,
               fragmentationPercent := if totalFree > 0
                                       then ((1.0 - largestFree as real / totalFree as real) * 100.0).Floor
                                       else 0);
    }

    /** s is the caller's record; it is left alone before initialization. */
    method MemoryGetStats(s: Stats) returns (s': Stats)
      requires Valid()
      ensures !memoryInitialized ==> s' == s
      ensures memoryInitialized ==>
                && s' == stats.(largestFreeBlock := LargestFree(blocks), fragmentationPercent := Fragmentation(blocks))
                && StatsAgree(s', blocks, word, h)
    {
      if !memoryInitialized {
        return s;
      }
      s' := CalculateFragmentation(stats);
    }

    lemma StatsAfterRelease(s: Stats, s': Stats, bs: seq<Block>, k: nat)
      requires Wf(bs, h) && k < |bs| && !bs[k].free && StatsAgree(s, bs, word, h)
      requires s' == s.(numFrees := (s.numFrees + 1) % U32,
                        usedHeapSize := SubSize(s.usedHeapSize, bs[k].size + h, word),
                        freeHeapSize := AddSize(s.freeHeapSize, bs[k].size + h, word))
      ensures StatsAgree(s', Release(bs, k, h), word, h)
    {
      ReleaseCounts(bs, k, h);
      BytesAreConserved(bs, h);
      ReleaseRemovesOne(bs, k, h);
      BytesAreConserved(Release(bs, k, h), h);
      CountDown(s.numAllocations, s.numFrees, Count(bs, false));
    }
  }

  /** The reported figures add up to the heap; the free one wraps exactly when no block is free. */
  lemma {:induction false} StatsAddUp(s: Stats, bs: seq<Block>, word: WordSize, h: HeaderSize)
    requires Tiles(bs, h) && StatsAgree(s, bs, word, h)
    ensures s.usedHeapSize + s.freeHeapSize == HEAP_SIZE + (if Count(bs, true) > 0 then 0 else word)
    ensures (s.numAllocations - s.numFrees) % U32 == |Live(bs)| % U32
  {
    BytesAreConserved(bs, h);
    SomeFreeBytes(bs, h);
    CountIsLive(bs, h);
  }

  lemma {:induction false} SomeFreeBytes(bs: seq<Block>, h: HeaderSize)
    ensures if Count(bs, true) > 0 then Bytes(bs, true, h) >= h else Bytes(bs, true, h) == 0
  {
    if bs != [] {
      SomeFreeBytes(bs[..|bs| - 1], h);
    }
  }

  lemma CountUp(a: nat, f: nat, c: nat)
    requires a < U32 && f < U32 && (a - f) % U32 == c % U32
    ensures ((a + 1) % U32 - f) % U32 == (c + 1) % U32
  {
  }

  lemma CountDown(a: nat, f: nat, c: nat)
    requires a < U32 && f < U32 && (a - f) % U32 == c % U32 && c > 0
    ensures (a - (f + 1) % U32) % U32 == (c - 1) % U32
  {
  }
}
