/**
  The allocator's calls on block lists (rtos_malloc, rtos_free and rtos_realloc in
  src/kernel/memory.c): what they do to each other, every run of them, and requests near the end of
  the size_t range.
*/
module HeapCalls {
  import opened Blocks

  // ---------------------------------------------------------------------------------------------
  // Whole calls, and what they do to each other
  // ---------------------------------------------------------------------------------------------

  /** The index of the block whose header is at off, or -1. */
  function IndexOf(bs: seq<Block>, off: nat): (k: int)
    ensures k == -1 || (0 <= k < |bs| && bs[k].off == off)
    ensures k == -1 <==> forall j :: 0 <= j < |bs| ==> bs[j].off != off
  {
    if bs == [] then -1
    else if bs[|bs| - 1].off == off then |bs| - 1
    else IndexOf(bs[..|bs| - 1], off)
  }

  /** rtos_malloc of an already aligned request. */
  function Malloc(bs: seq<Block>, n: nat, h: HeaderSize): seq<Block> {
    var k := BestFit(bs, n);
    if k == -1 then bs else Grant(bs, k, n, h)
  }

  /** rtos_free of the header at off; a header no longer in the list is one already free. */
  function Free(bs: seq<Block>, off: nat, h: HeaderSize): seq<Block> {
    var k := IndexOf(bs, off);
    if k == -1 || bs[k].free then bs else Release(bs, k, h)
  }

  ghost function LiveAt(bs: seq<Block>, off: nat): set<Block> {
    set b | b in Live(bs) && b.off == off
  }

  lemma FreeMeaning(bs: seq<Block>, off: nat, h: HeaderSize)
    requires Wf(bs, h)
    ensures Wf(Free(bs, off, h), h)
    ensures Live(Free(bs, off, h)) == Live(bs) - LiveAt(bs, off)
  {
    var k := IndexOf(bs, off);
    if k != -1 && !bs[k].free {
      ReleaseRemovesOne(bs, k, h);
      forall b | b in LiveAt(bs, off) ensures b == bs[k] {
        var j :| 0 <= j < |bs| && bs[j] == b;
        OffsetIsIdentity(bs, h, j, k);
      }
    } else {
      forall b | b in LiveAt(bs, off) ensures false {
        var j :| 0 <= j < |bs| && bs[j] == b;
        if k != -1 {
          OffsetIsIdentity(bs, h, j, k);
        }
      }
    }
  }

  lemma {:induction false} MallocMeaning(bs: seq<Block>, n: nat, h: HeaderSize)
    requires Wf(bs, h) && n % 4 == 0
    ensures Wf(Malloc(bs, n, h), h)
    ensures BestFit(bs, n) >= 0 ==>
              var g := Granted(bs[BestFit(bs, n)], n, h);
              g !in Live(bs) && Live(Malloc(bs, n, h)) == Live(bs) + {g} && n <= g.size < n + h + 32
  {
    BestFitChooses(bs, n);
    if BestFit(bs, n) >= 0 {
      GrantIsWf(bs, BestFit(bs, n), n, h);
      GrantAddsOne(bs, BestFit(bs, n), n, h);
    }
  }

  /** Releasing what was just allocated restores the list exactly. */
  lemma {:induction false} MallocThenFree(bs: seq<Block>, n: nat, h: HeaderSize, k: nat)
    requires Wf(bs, h) && n % 4 == 0 && k == BestFit(bs, n)
    ensures Free(Malloc(bs, n, h), bs[k].off, h) == bs
  {
    BestFitChooses(bs, n);
    var ms := Malloc(bs, n, h);
    MallocMeaning(bs, n, h);
    FreeMeaning(ms, bs[k].off, h);
    forall b | b in LiveAt(bs, bs[k].off) ensures false {
      var j :| 0 <= j < |bs| && bs[j] == b;
      OffsetIsIdentity(bs, h, j, k);
    }
    var g := Granted(bs[k], n, h);
    assert forall b :: b in Live(ms) <==> b in Live(bs) || b == g;
    assert Live(Free(ms, bs[k].off, h)) == Live(bs) by {
      forall b | b in Live(bs) ensures b !in LiveAt(ms, bs[k].off) {
        assert b !in LiveAt(bs, bs[k].off);
      }
    }
    Canonical(Free(ms, bs[k].off, h), bs, h);
  }

  lemma FreesCommute(bs: seq<Block>, x: nat, y: nat, h: HeaderSize)
    requires Wf(bs, h)
    ensures Free(Free(bs, x, h), y, h) == Free(Free(bs, y, h), x, h)
  {
    FreeMeaning(bs, x, h);
    FreeMeaning(bs, y, h);
    FreeMeaning(Free(bs, x, h), y, h);
    FreeMeaning(Free(bs, y, h), x, h);
    Canonical(Free(Free(bs, x, h), y, h), Free(Free(bs, y, h), x, h), h);
  }

  /** Freeing twice is freeing once, also with other frees in between. */
  lemma {:induction false} DoubleFree(bs: seq<Block>, off: nat, between: seq<nat>, h: HeaderSize)
    requires Wf(bs, h)
    ensures Free(FreeEach(Free(bs, off, h), between, h), off, h) == FreeEach(Free(bs, off, h), between, h)
  {
    var fs := Free(bs, off, h);
    FreeMeaning(bs, off, h);
    FreeEachMeaning(fs, between, h);
    FreeMeaning(FreeEach(fs, between, h), off, h);
    Canonical(Free(FreeEach(fs, between, h), off, h), FreeEach(fs, between, h), h);
  }

  function FreeEach(bs: seq<Block>, offs: seq<nat>, h: HeaderSize): seq<Block>
    decreases |offs|
  {
    if offs == [] then bs else FreeEach(Free(bs, offs[0], h), offs[1..], h)
  }

  lemma {:induction false} FreeEachMeaning(bs: seq<Block>, offs: seq<nat>, h: HeaderSize)
    requires Wf(bs, h)
    ensures Wf(FreeEach(bs, offs, h), h)
    ensures Live(FreeEach(bs, offs, h)) == set b | b in Live(bs) && b.off !in offs
    decreases |offs|
  {
    if offs != [] {
      FreeMeaning(bs, offs[0], h);
      FreeEachMeaning(Free(bs, offs[0], h), offs[1..], h);
      assert forall o :: o in offs <==> o == offs[0] || o in offs[1..];
    }
  }

  function Fresh(h: HeaderSize): seq<Block> {
    [Block(0, HEAP_SIZE - h, true)]
  }

  /** Releasing every allocation, in any order, leaves the heap as memory_init made it. */
  lemma {:induction false} FreeAll(bs: seq<Block>, offs: seq<nat>, h: HeaderSize)
    requires Wf(bs, h)
    ensures FreeEach(bs, offs, h) == Fresh(h) <==> forall b :: b in Live(bs) ==> b.off in offs
  {
    FreeEachMeaning(bs, offs, h);
    assert Live(Fresh(h)) == {};
    assert Wf(Fresh(h), h);
    if forall b :: b in Live(bs) ==> b.off in offs {
      assert Live(FreeEach(bs, offs, h)) == {};
      Canonical(FreeEach(bs, offs, h), Fresh(h), h);
    } else {
      var b :| b in Live(bs) && b.off !in offs;
      assert b in Live(FreeEach(bs, offs, h));
    }
  }

  // ---------------------------------------------------------------------------------------------
  // Every run
  // ---------------------------------------------------------------------------------------------

  /** Sum and difference of two size_t values; word is SIZE_MAX + 1. */
  function AddSize(a: nat, b: nat, word: nat): (r: nat) {
    if a + b < word then a + b else a + b - word
  }

  function SubSize(a: nat, b: nat, word: nat): (r: int) {
    if a >= b then a - b else a - b + word
  }

  /** align_size: ~3 clears the two low bits. */
  function AlignSize(n: nat, word: nat): (r: nat) {
    AddSize(n, 3, word) / 4 * 4
  }

  /** Rounding up is right exactly while the addition does not wrap; beyond that the request
      silently becomes an empty one. */
  lemma AlignSizeMeaning(n: nat, word: nat)
    requires n < word && 4 <= word
    ensures AlignSize(n, word) % 4 == 0
    ensures n <= AlignSize(n, word) <==> n + 3 < word
    ensures n + 3 < word ==> AlignSize(n, word) < n + 4
    ensures n + 3 >= word ==> AlignSize(n, word) == 0
  {
  }

  /** rtos_realloc of the live block whose header is at off. */
  function Realloc(bs: seq<Block>, off: nat, n: nat, word: nat, h: HeaderSize): seq<Block>
  {
    var k := IndexOf(bs, off);
    var size := AlignSize(n, word);
    if n == 0 then Free(bs, off, h)
    else if k == -1 || n <= bs[k].size then bs
    else if BestFit(bs, size) == -1 then bs
    else Free(Malloc(bs, size, h), off, h)
  }

  /** What becomes of a live block b: released for size 0, left alone while it is large enough or
      nothing larger can be had, and otherwise replaced by the block that an allocation gets. */
  lemma ReallocMeaning(bs: seq<Block>, b: Block, n: nat, word: nat, h: HeaderSize)
    requires Wf(bs, h) && b in Live(bs)
    ensures var rs := Realloc(bs, b.off, n, word, h);
            && (n == 0 ==> Live(rs) == Live(bs) - {b})
            && (0 < n <= b.size ==> rs == bs)
            && (n > b.size && (forall j :: 0 <= j < |bs| ==> !Fits(bs[j], AlignSize(n, word))) ==> rs == bs)
    ensures var size := AlignSize(n, word);
            forall k: nat :: n > b.size && IsBestFit(bs, size, k) ==>
              Live(Realloc(bs, b.off, n, word, h)) == Live(bs) - {b} + {Granted(bs[k], size, h)}
  {
    var size := AlignSize(n, word);
    ListedAt(bs, b, h);
    BestFitChooses(bs, size);
    FreesOne(bs, b, h);
    forall k: nat | n > b.size && IsBestFit(bs, size, k)
      ensures Live(Realloc(bs, b.off, n, word, h)) == Live(bs) - {b} + {Granted(bs[k], size, h)}
    {
      BestFitIsUnique(bs, size, k, BestFit(bs, size));
      AlignSizeAligned(n, word);
      Exchanged(bs, b, k, size, h);
    }
  }

  lemma {:induction false} ListedAt(bs: seq<Block>, b: Block, h: HeaderSize)
    requires Wf(bs, h) && b in Live(bs)
    ensures var i := IndexOf(bs, b.off); 0 <= i < |bs| && bs[i] == b
  {
    var j :| 0 <= j < |bs| && bs[j] == b;
    OffsetIsIdentity(bs, h, j, IndexOf(bs, b.off));
  }

  lemma {:induction false} Exchanged(bs: seq<Block>, b: Block, k: nat, size: nat, h: HeaderSize)
    requires Wf(bs, h) && b in Live(bs) && k < |bs| && k == BestFit(bs, size) && size % 4 == 0
    ensures Live(Free(Malloc(bs, size, h), b.off, h)) == Live(bs) - {b} + {Granted(bs[k], size, h)}
  {
    MallocMeaning(bs, size, h);
    FreesOne(Malloc(bs, size, h), b, h);
  }

  lemma BestFitIsUnique(bs: seq<Block>, n: nat, i: nat, j: nat)
    requires IsBestFit(bs, n, i) && IsBestFit(bs, n, j)
    ensures i == j
  {
  }

  lemma FreesOne(bs: seq<Block>, b: Block, h: HeaderSize)
    requires Wf(bs, h) && b in Live(bs)
    ensures Live(Free(bs, b.off, h)) == Live(bs) - {b}
  {
    FreeMeaning(bs, b.off, h);
    forall x | x in LiveAt(bs, b.off) ensures x == b {
      var i :| 0 <= i < |bs| && bs[i] == b;
      var j :| 0 <= j < |bs| && bs[j] == x;
      OffsetIsIdentity(bs, h, i, j);
    }
  }

  datatype Call =
    | CallMalloc(n: nat)
    | CallFree(off: nat)
    | CallRealloc(off: nat, n: nat)

  function Step(bs: seq<Block>, c: Call, word: nat, h: HeaderSize): seq<Block>
  {
    match c
    case CallMalloc(n) => if n == 0 then bs else Malloc(bs, AlignSize(n, word), h)
    case CallFree(off) => Free(bs, off, h)
    case CallRealloc(off, n) => Realloc(bs, off, n, word, h)
  }

  function RunFrom(bs: seq<Block>, calls: seq<Call>, word: nat, h: HeaderSize): seq<Block>
    decreases |calls|
  {
    if calls == [] then bs else RunFrom(Step(bs, calls[0], word, h), calls[1..], word, h)
  }

  /** A run from the initialized heap. */
  function Run(calls: seq<Call>, word: nat, h: HeaderSize): seq<Block> {
    RunFrom(Fresh(h), calls, word, h)
  }

  lemma MallocIsWf(bs: seq<Block>, n: nat, h: HeaderSize, ms: seq<Block>)
    requires Wf(bs, h) && n % 4 == 0 && ms == Malloc(bs, n, h)
    ensures Wf(ms, h)
  {
    MallocMeaning(bs, n, h);
  }

  lemma FreeIsWf(bs: seq<Block>, off: nat, h: HeaderSize, fs: seq<Block>)
    requires Wf(bs, h) && fs == Free(bs, off, h)
    ensures Wf(fs, h)
  {
    FreeMeaning(bs, off, h);
  }

  lemma AlignSizeAligned(n: nat, word: nat)
    ensures AlignSize(n, word) % 4 == 0
  {
  }

  lemma ReallocIsWf(bs: seq<Block>, off: nat, n: nat, word: nat, h: HeaderSize, rs: seq<Block>)
    requires Wf(bs, h) && rs == Realloc(bs, off, n, word, h)
    ensures Wf(rs, h)
  {
    var size := AlignSize(n, word);
    var ms := Malloc(bs, size, h);
    AlignSizeAligned(n, word);
    MallocIsWf(bs, size, h, ms);
    FreeIsWf(ms, off, h, Free(ms, off, h));
    FreeIsWf(bs, off, h, Free(bs, off, h));
  }

  lemma StepIsWf(bs: seq<Block>, c: Call, word: nat, h: HeaderSize, r: seq<Block>)
    requires Wf(bs, h) && r == Step(bs, c, word, h)
    ensures Wf(r, h)
  {
    match c
    case CallMalloc(n) =>
      if n != 0 {
        AlignSizeAligned(n, word);
        MallocIsWf(bs, AlignSize(n, word), h, r);
      }
    case CallFree(off) => FreeIsWf(bs, off, h, r);
    case CallRealloc(off, n) => ReallocIsWf(bs, off, n, word, h, r);
  }

  lemma {:induction false} RunIsWf(bs: seq<Block>, calls: seq<Call>, word: nat, h: HeaderSize)
    requires Wf(bs, h)
    ensures Wf(RunFrom(bs, calls, word, h), h)
    decreases |calls|
  {
    if calls != [] {
      StepIsWf(bs, calls[0], word, h, Step(bs, calls[0], word, h));
      RunIsWf(Step(bs, calls[0], word, h), calls[1..], word, h);
    }
  }

  lemma FreshIsWf(h: HeaderSize)
    ensures Wf(Fresh(h), h)
  {
  }

  /** No trace of history is left in the list: two runs with the same allocations in force have
      the same list, and releasing those allocations in any order gives back the initial heap. */
  lemma {:induction false} RunsAreCanonical(p: seq<Call>, q: seq<Call>, offs: seq<nat>, word: nat, h: HeaderSize)
    ensures Run(p, word, h) == Run(q, word, h) <==> Live(Run(p, word, h)) == Live(Run(q, word, h))
    ensures (forall b :: b in Live(Run(p, word, h)) ==> b.off in offs)
            <==> FreeEach(Run(p, word, h), offs, h) == Fresh(h)
  {
    FreshIsWf(h);
    RunIsWf(Fresh(h), p, word, h);
    RunIsWf(Fresh(h), q, word, h);
    if Live(Run(p, word, h)) == Live(Run(q, word, h)) {
      Canonical(Run(p, word, h), Run(q, word, h), h);
    }
    FreeAll(Run(p, word, h), offs, h);
  }

  // ---------------------------------------------------------------------------------------------
  // Requests near the end of the size_t range
  // ---------------------------------------------------------------------------------------------

  predicate Positive(bs: seq<Block>) {
    forall i :: 0 <= i < |bs| ==> bs[i].size > 0
  }

  lemma GrantPositive(bs: seq<Block>, k: nat, n: nat, h: HeaderSize)
    requires Positive(bs) && k < |bs|
    ensures Positive(Grant(bs, k, n, h)) <==> n > 0 || !Splits(bs[k], n, h)
  {
    var gs := Grant(bs, k, n, h);
    assert gs[k] == Granted(bs[k], n, h);
    forall j | 0 <= j < |gs| && (n > 0 || !Splits(bs[k], n, h)) ensures gs[j].size > 0 {
      if j < k {
        assert gs[j] == bs[j];
      } else if j > k + 1 || (j > k && |gs| == |bs|) {
        assert gs[j] == bs[j - (|gs| - |bs|)];
      }
    }
  }

  lemma {:induction false} CoalescePositive(bs: seq<Block>, i: nat, h: HeaderSize)
    requires Positive(bs)
    ensures Positive(Coalesce(bs, i, h))
    decreases |bs| - i
  {
    if i + 1 < |bs| {
      if bs[i].free && bs[i + 1].free {
        var js := Join(bs, i, h);
        forall j | 0 <= j < |js| ensures js[j].size > 0 {
          assert j > i ==> js[j] == bs[j + 1];
        }
        CoalescePositive(js, i, h);
      } else {
        CoalescePositive(bs, i + 1, h);
      }
    }
  }

  lemma FreePositive(bs: seq<Block>, off: nat, h: HeaderSize)
    requires Positive(bs)
    ensures Positive(Free(bs, off, h))
  {
    var k := IndexOf(bs, off);
    if k != -1 && !bs[k].free {
      CoalescePositive(MarkFree(bs, k), 0, h);
    }
  }

  lemma MallocPositive(bs: seq<Block>, n: nat, h: HeaderSize)
    requires Positive(bs) && n > 0
    ensures Positive(Malloc(bs, n, h))
  {
    if BestFit(bs, n) >= 0 {
      GrantPositive(bs, BestFit(bs, n), n, h);
    }
  }

  /** The request of a call. */
  function Request(c: Call): nat {
    match c
    case CallMalloc(n) => n
    case CallFree(_) => 0
    case CallRealloc(_, n) => n
  }

  lemma StepPositive(bs: seq<Block>, c: Call, word: nat, h: HeaderSize)
    requires Positive(bs) && Request(c) + 3 < word
    ensures Positive(Step(bs, c, word, h))
  {
    FreePositive(bs, OffsetOf(c), h);
    if Request(c) > 0 {
      MallocPositive(bs, AlignSize(Request(c), word), h);
      FreePositive(Malloc(bs, AlignSize(Request(c), word), h), OffsetOf(c), h);
    }
  }

  /** While no rounding wraps, block sizes stay positive multiples of four. */
  lemma {:induction false} RunIsPositive(bs: seq<Block>, calls: seq<Call>, word: nat, h: HeaderSize)
    requires Wf(bs, h) && Positive(bs) && forall i :: 0 <= i < |calls| ==> Request(calls[i]) + 3 < word
    ensures Positive(RunFrom(bs, calls, word, h)) && Aligned(RunFrom(bs, calls, word, h))
    decreases |calls|
  {
    if calls != [] {
      assert forall i :: 0 <= i < |calls| - 1 ==> calls[1..][i] == calls[i + 1];
      StepIsWf(bs, calls[0], word, h, Step(bs, calls[0], word, h));
      StepPositive(bs, calls[0], word, h);
      RunIsPositive(Step(bs, calls[0], word, h), calls[1..], word, h);
    }
  }

  function OffsetOf(c: Call): nat {
    match c
    case CallMalloc(_) => 0
    case CallFree(off) => off
    case CallRealloc(off, _) => off
  }

  /** A request that is granted gets what it asked for exactly if the rounding did not wrap. */
  lemma {:induction false} RequestIsCovered(bs: seq<Block>, n: nat, word: nat, h: HeaderSize)
    requires Wf(bs, h) && HEAP_SIZE + 3 < word && BestFit(bs, AlignSize(n, word)) >= 0
    ensures var size := AlignSize(n, word);
            n <= Granted(bs[BestFit(bs, size)], size, h).size <==> n + 3 < word
  {
    var size := AlignSize(n, word);
    BestFitChooses(bs, size);
    BlockInHeap(bs, h, BestFit(bs, size));
  }

  /** What a request does whose rounding wraps: it takes the smallest free block there is, and all
      but a block of size 0 of it stays free if there is room for another header. */
  lemma {:induction false} WrappedRequest(bs: seq<Block>, n: nat, word: nat, h: HeaderSize)
    requires Positive(bs) && n < word <= n + 3 && 4 <= word
    ensures BestFit(bs, AlignSize(n, word)) == -1 <==> forall j :: 0 <= j < |bs| ==> !bs[j].free
    ensures var k := BestFit(bs, 0);
            Positive(Step(bs, CallMalloc(n), word, h)) <==> k == -1 || bs[k].size < h + 32
  {
    AlignSizeMeaning(n, word);
    BestFitChooses(bs, 0);
    if BestFit(bs, 0) >= 0 {
      GrantPositive(bs, BestFit(bs, 0), 0, h);
    }
  }

  /** So the first request of a run can be given a live block of size 0 for almost the whole range. */
  lemma {:induction false} EmptyBlockHandedOut(n: nat, word: nat, h: HeaderSize)
    requires n < word <= n + 3 && 4 <= word && 2 * h + 32 <= HEAP_SIZE
    ensures Run([CallMalloc(n)], word, h) == Grant(Fresh(h), 0, 0, h)
    ensures Block(0, 0, false) in Live(Run([CallMalloc(n)], word, h))
  {
    AlignSizeMeaning(n, word);
    assert [CallMalloc(n)][1..] == [];
    var bs := Step(Fresh(h), CallMalloc(n), word, h);
    assert RunFrom(bs, [], word, h) == bs;
    assert Run([CallMalloc(n)], word, h) == bs;
    assert Fresh(h)[..0] == [];
    assert BestFit(Fresh(h), 0) == 0;
    assert Grant(Fresh(h), 0, 0, h)[0] == Block(0, 0, false);
  }
}
