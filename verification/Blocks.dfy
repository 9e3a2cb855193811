/**
  The block list of the heap allocator (src/kernel/memory.c), as a value.

  The C code keeps the list inside the heap array; Heap.dfy shows that the pointer code refines
  the functions defined here, and this module says what those functions mean: which block a
  request gets, what merging does to the list, and why the list is a canonical form of the live
  allocations.
*/
module Blocks {

  const HEAP_SIZE: nat := 64 * 1024

  /** sizeof(memory_block_t): it depends on the compiler, so everything holds for any value the
      alignment of the heap allows. */
  type HeaderSize = h: nat | 0 < h < HEAP_SIZE && h % 4 == 0 witness 24

  /** One block: the offset of its header, the size of its payload, and its free flag. */
  datatype Block = Block(off: nat, size: nat, free: bool)

  /** The offset just past block k, which is where the next header starts. */
  function End(b: Block, h: HeaderSize): nat {
    b.off + h + b.size
  }

  function Payload(b: Block, h: HeaderSize): nat {
    b.off + h
  }

  // ---------------------------------------------------------------------------------------------
  // What a well-formed list is
  // ---------------------------------------------------------------------------------------------

  ghost predicate Adjacent(bs: seq<Block>, i: nat, h: HeaderSize)
    requires i + 1 < |bs|
  {
    End(bs[i], h) == bs[i + 1].off
  }

  ghost predicate FreePair(bs: seq<Block>, i: nat)
    requires i + 1 < |bs|
  {
    bs[i].free && bs[i + 1].free
  }

  /** The blocks cover the heap exactly, in address order. */
  ghost predicate Tiles(bs: seq<Block>, h: HeaderSize) {
    && |bs| > 0
    && bs[0].off == 0
    && (forall i :: 0 <= i < |bs| - 1 ==> Adjacent(bs, i, h))
    && End(bs[|bs| - 1], h) == HEAP_SIZE
  }

  /** Free neighbours have been merged, everywhere below index n. */
  ghost predicate CoalescedBelow(bs: seq<Block>, n: int) {
    forall i :: 0 <= i < n && i + 1 < |bs| ==> !FreePair(bs, i)
  }

  ghost predicate Coalesced(bs: seq<Block>) {
    CoalescedBelow(bs, |bs|)
  }

  ghost predicate Aligned(bs: seq<Block>) {
    forall i :: 0 <= i < |bs| ==> bs[i].size % 4 == 0
  }

  ghost predicate Wf(bs: seq<Block>, h: HeaderSize) {
    Tidy(bs, h) && Aligned(bs)
  }

  ghost predicate Tidy(bs: seq<Block>, h: HeaderSize) {
    Tiles(bs, h) && Coalesced(bs)
  }

  /** The allocations in force. */
  ghost function Live(bs: seq<Block>): set<Block> {
    set b | b in bs && !b.free
  }

  /** Blocks lie in address order, without overlap, inside the heap. */
  lemma {:induction false} BlocksAreDisjoint(bs: seq<Block>, h: HeaderSize, i: nat, j: nat)
    requires Tiles(bs, h) && i < j < |bs|
    ensures End(bs[i], h) <= bs[j].off && End(bs[j], h) <= HEAP_SIZE
    decreases |bs| - i, |bs| - j
  {
    assert Adjacent(bs, i, h);
    if i + 1 < j {
      BlocksAreDisjoint(bs, h, i + 1, j);
    }
    if j < |bs| - 1 {
      BlocksAreDisjoint(bs, h, j, |bs| - 1);
    }
  }

  lemma BlockInHeap(bs: seq<Block>, h: HeaderSize, i: nat)
    requires Tiles(bs, h) && i < |bs|
    ensures End(bs[i], h) <= HEAP_SIZE
  {
    if i < |bs| - 1 {
      BlocksAreDisjoint(bs, h, i, |bs| - 1);
    }
  }

  /** A block is identified by its offset. */
  lemma OffsetIsIdentity(bs: seq<Block>, h: HeaderSize, i: nat, j: nat)
    requires Tiles(bs, h) && i < |bs| && j < |bs| && bs[i].off == bs[j].off
    ensures i == j
  {
    if i < j {
      BlocksAreDisjoint(bs, h, i, j);
    } else if j < i {
      BlocksAreDisjoint(bs, h, j, i);
    }
  }

  /** Allocations do not overlap, headers included. */
  lemma LiveBlocksAreDisjoint(bs: seq<Block>, h: HeaderSize, x: Block, y: Block)
    requires Tiles(bs, h) && x in Live(bs) && y in Live(bs) && x != y
    ensures End(x, h) <= y.off || End(y, h) <= x.off
    ensures End(x, h) <= HEAP_SIZE
  {
    var i :| 0 <= i < |bs| && bs[i] == x;
    var j :| 0 <= j < |bs| && bs[j] == y;
    if i < j {
      BlocksAreDisjoint(bs, h, i, j);
    } else {
      BlocksAreDisjoint(bs, h, j, i);
    }
    BlockInHeap(bs, h, i);
  }

  // ---------------------------------------------------------------------------------------------
  // Canonical form: the live allocations determine the whole list
  // ---------------------------------------------------------------------------------------------

  /** Two well-formed lists with the same allocations agree block by block. */
  lemma {:induction false} CanonicalPrefix(a: seq<Block>, b: seq<Block>, h: HeaderSize, k: nat)
    requires Tidy(a, h) && Tidy(b, h) && Live(a) == Live(b) && k <= |a|
    ensures k <= |b| && a[..k] == b[..k]
  {
    if k > 0 {
      var i := k - 1;
      CanonicalPrefix(a, b, h, i);
      if i == |b| {
        assert a[i - 1] == a[..i][i - 1] == b[..i][i - 1] == b[i - 1];
        assert Adjacent(a, i - 1, h);
        BlockInHeap(a, h, i);
        assert false;
      }
      assert a[i].off == b[i].off by {
        if i > 0 {
          assert a[i - 1] == a[..i][i - 1] == b[..i][i - 1] == b[i - 1];
          assert Adjacent(a, i - 1, h) && Adjacent(b, i - 1, h);
        }
      }
      LiveHeadsAgree(a, b, h, i);
      LiveHeadsAgree(b, a, h, i);
      if a[i].free && b[i].free {
        FreeHeadsAgree(a, b, h, i);
        FreeHeadsAgree(b, a, h, i);
      }
      assert a[..k] == a[..i] + [a[i]] && b[..k] == b[..i] + [b[i]];
    }
  }

  lemma LiveHeadsAgree(a: seq<Block>, b: seq<Block>, h: HeaderSize, i: nat)
    requires Tidy(a, h) && Tidy(b, h) && Live(a) == Live(b)
    requires i < |a| && i < |b| && a[i].off == b[i].off
    ensures !a[i].free ==> a[i] == b[i]
  {
    if !a[i].free {
      assert a[i] in Live(b);
      var j :| 0 <= j < |b| && b[j] == a[i];
      OffsetIsIdentity(b, h, i, j);
    }
  }

  lemma FreeHeadsAgree(a: seq<Block>, b: seq<Block>, h: HeaderSize, i: nat)
    requires Tidy(a, h) && Tidy(b, h) && Live(a) == Live(b)
    requires i < |a| && i < |b| && a[i].off == b[i].off && a[i].free && b[i].free
    ensures a[i].size >= b[i].size
  {
    if a[i].size < b[i].size {
      BlockInHeap(b, h, i);
      assert i < |a| - 1;
      assert Adjacent(a, i, h) && !FreePair(a, i);
      assert a[i + 1] in Live(b);
      var j :| 0 <= j < |b| && b[j] == a[i + 1];
      if i < j {
        BlocksAreDisjoint(b, h, i, j);
      } else if j < i {
        BlocksAreDisjoint(b, h, j, i);
      }
      assert false;
    }
  }

  /** The list is a function of the set of live allocations. */
  lemma Canonical(a: seq<Block>, b: seq<Block>, h: HeaderSize)
    requires Tidy(a, h) && Tidy(b, h) && Live(a) == Live(b)
    ensures a == b
  {
    CanonicalPrefix(a, b, h, |a|);
    CanonicalPrefix(b, a, h, |b|);
    assert a == a[..|a|] && b == b[..|b|];
  }

  // ---------------------------------------------------------------------------------------------
  // Choosing a block: find_best_fit
  // ---------------------------------------------------------------------------------------------

  predicate Fits(b: Block, n: nat) {
    b.free && n <= b.size
  }

  /** The scan of find_best_fit over a prefix: the index it would hold, or -1. */
  function BestFit(bs: seq<Block>, n: nat): (k: int)
    ensures k == -1 || 0 <= k < |bs|
  {
    if bs == [] then -1
    else
      var last := |bs| - 1;
      var k := BestFit(bs[..last], n);
      if Fits(bs[last], n) && (k == -1 || bs[last].size < bs[k].size) then last else k
  }

  /** k is the lowest-address block among the smallest that suffice. */
  ghost predicate IsBestFit(bs: seq<Block>, n: nat, k: nat) {
    && k < |bs|
    && Fits(bs[k], n)
    && (forall j :: 0 <= j < |bs| && Fits(bs[j], n) ==> bs[k].size <= bs[j].size)
    && (forall j :: 0 <= j < k && Fits(bs[j], n) ==> bs[k].size < bs[j].size)
  }

  lemma {:induction false} BestFitChooses(bs: seq<Block>, n: nat)
    ensures BestFit(bs, n) == -1 <==> forall j :: 0 <= j < |bs| ==> !Fits(bs[j], n)
    ensures BestFit(bs, n) >= 0 ==> IsBestFit(bs, n, BestFit(bs, n))
  {
    if bs != [] {
      var init := bs[..|bs| - 1];
      BestFitChooses(init, n);
      assert forall j :: 0 <= j < |init| ==> bs[j] == init[j];
    }
  }

  // ---------------------------------------------------------------------------------------------
  // Granting a block: split_block and the marking in rtos_malloc
  // ---------------------------------------------------------------------------------------------

  /** The split threshold: a smaller remainder stays with the granted block. */
  predicate Splits(b: Block, n: nat, h: HeaderSize) {
    b.size >= n + h + 32
  }

  function Granted(b: Block, n: nat, h: HeaderSize): Block {
    Block(b.off, if Splits(b, n, h) then n else b.size, false)
  }

  function Grant(bs: seq<Block>, k: nat, n: nat, h: HeaderSize): seq<Block>
    requires k < |bs|
  {
    if Splits(bs[k], n, h)
    then bs[..k] + [Granted(bs[k], n, h), Block(bs[k].off + h + n, bs[k].size - n - h, true)] + bs[k + 1..]
    else bs[k := Granted(bs[k], n, h)]
  }

  /** split_block alone: both parts are still free. */
  function Split(bs: seq<Block>, k: nat, n: nat, h: HeaderSize): seq<Block>
    requires k < |bs|
  {
    if Splits(bs[k], n, h)
    then bs[..k] + [bs[k].(size := n), Block(bs[k].off + h + n, bs[k].size - n - h, true)] + bs[k + 1..]
    else bs
  }

  /** A block is cut exactly if what is left over has room for a header and 32 bytes; what is left
      over is then a free block of its own, directly behind the one granted. */
  lemma GrantSize(bs: seq<Block>, k: nat, n: nat, h: HeaderSize)
    requires k < |bs| && Fits(bs[k], n)
    ensures var gs, rest := Grant(bs, k, n, h), bs[k].size - n;
            if rest < h + 32 then gs == bs[k := Block(bs[k].off, bs[k].size, false)]
            else gs == bs[..k] + [Block(bs[k].off, n, false), Block(bs[k].off + h + n, rest - h, true)] + bs[k + 1..]
  {
  }

  lemma SplitAligned(bs: seq<Block>, k: nat, n: nat, h: HeaderSize)
    requires Aligned(bs) && k < |bs| && Splits(bs[k], n, h) && n % 4 == 0
    ensures Aligned(Split(bs, k, n, h))
  {
    var ss := Split(bs, k, n, h);
    forall j | 0 <= j < |ss| ensures ss[j].size % 4 == 0 {
      if j < k {
        assert ss[j] == bs[j];
      } else if j == k + 1 {
        RestAligned(bs[k].size, n, h);
      } else if j > k + 1 {
        assert ss[j] == bs[j - 1];
      }
    }
  }

  lemma RestAligned(a: nat, b: nat, c: nat)
    requires a % 4 == 0 && b % 4 == 0 && c % 4 == 0
    ensures (a - b - c) % 4 == 0
  {
    assert a - b - c == 4 * (a / 4 - b / 4 - c / 4);
  }

  lemma SplitKeepsLive(bs: seq<Block>, k: nat, n: nat, h: HeaderSize)
    requires k < |bs| && bs[k].free
    ensures Live(Split(bs, k, n, h)) == Live(bs)
  {
    var ss := Split(bs, k, n, h);
    if Splits(bs[k], n, h) {
      forall b | b in Live(bs) ensures b in Live(ss) {
        var j :| 0 <= j < |bs| && bs[j] == b;
        assert ss[if j < k then j else j + 1] == b;
      }
      forall b | b in Live(ss) ensures b in Live(bs) {
        var j :| 0 <= j < |ss| && ss[j] == b;
        assert bs[if j < k then j else j - 1] == b;
      }
    }
  }

  lemma GrantIsSplitAndMark(bs: seq<Block>, k: nat, n: nat, h: HeaderSize)
    requires k < |bs|
    ensures k < |Split(bs, k, n, h)|
    ensures Grant(bs, k, n, h) == Split(bs, k, n, h)[k := Split(bs, k, n, h)[k].(free := false)]
  {
  }

  lemma GrantIsWf(bs: seq<Block>, k: nat, n: nat, h: HeaderSize)
    requires Wf(bs, h) && k < |bs| && Fits(bs[k], n) && n % 4 == 0
    ensures Wf(Grant(bs, k, n, h), h)
  {
    GrantTiles(bs, k, n, h);
    GrantAligned(bs, k, n, h);
    var gs := Grant(bs, k, n, h);
    forall j | 0 <= j < |gs| - 1 ensures !FreePair(gs, j) {
      GrantPair(bs, k, n, j, h);
    }
  }

  lemma GrantTiles(bs: seq<Block>, k: nat, n: nat, h: HeaderSize)
    requires Tiles(bs, h) && k < |bs|
    ensures Tiles(Grant(bs, k, n, h), h)
  {
    var gs := Grant(bs, k, n, h);
    var d := |gs| - |bs|;
    forall j | 0 <= j < |gs| - 1 ensures Adjacent(gs, j, h) {
      if j < k {
        assert Adjacent(bs, j, h);
      } else if j >= k + d {
        assert gs[j + 1] == bs[j + 1 - d] && (j > k + d ==> gs[j] == bs[j - d]);
        assert Adjacent(bs, j - d, h);
      }
    }
  }

  lemma GrantPair(bs: seq<Block>, k: nat, n: nat, j: nat, h: HeaderSize)
    requires Coalesced(bs) && k < |bs| && bs[k].free && j + 1 < |Grant(bs, k, n, h)|
    ensures !FreePair(Grant(bs, k, n, h), j)
  {
    var gs := Grant(bs, k, n, h);
    var d := |gs| - |bs|;
    if j < k {
      assert !FreePair(bs, j);
    } else if j >= k + d {
      assert gs[j + 1] == bs[j + 1 - d] && (j > k + d ==> gs[j] == bs[j - d]);
      assert !FreePair(bs, j - d);
    }
  }

  lemma GrantAligned(bs: seq<Block>, k: nat, n: nat, h: HeaderSize)
    requires Aligned(bs) && k < |bs| && n % 4 == 0
    ensures Aligned(Grant(bs, k, n, h))
  {
    GrantIsSplitAndMark(bs, k, n, h);
    if Splits(bs[k], n, h) {
      SplitAligned(bs, k, n, h);
    }
  }

  lemma GrantAddsOne(bs: seq<Block>, k: nat, n: nat, h: HeaderSize)
    requires Tiles(bs, h) && k < |bs| && Fits(bs[k], n)
    ensures Granted(bs[k], n, h) !in Live(bs)
    ensures Live(Grant(bs, k, n, h)) == Live(bs) + {Granted(bs[k], n, h)}
  {
    var gs := Grant(bs, k, n, h);
    var g := Granted(bs[k], n, h);
    if g in Live(bs) {
      var j :| 0 <= j < |bs| && bs[j] == g;
      OffsetIsIdentity(bs, h, j, k);
      assert false;
    }
    forall b | b in Live(bs) ensures b in Live(gs) {
      var j :| 0 <= j < |bs| && bs[j] == b;
      assert gs[if j < k || |gs| == |bs| then j else j + 1] == b;
    }
    assert gs[k] == g;
    forall b | b in Live(gs) ensures b in Live(bs) || b == g {
      var j :| 0 <= j < |gs| && gs[j] == b;
      if j != k {
        assert b == bs[if j < k || |gs| == |bs| then j else j - 1];
      }
    }
  }

  // ---------------------------------------------------------------------------------------------
  // Releasing a block: the marking in rtos_free and merge_free_blocks
  // ---------------------------------------------------------------------------------------------

  function Join(bs: seq<Block>, i: nat, h: HeaderSize): seq<Block>
    requires i + 1 < |bs|
  {
    bs[..i] + [bs[i].(size := bs[i].size + h + bs[i + 1].size)] + bs[i + 2..]
  }

  /** The pass of merge_free_blocks, from the block it has reached. */
  function Coalesce(bs: seq<Block>, i: nat, h: HeaderSize): seq<Block>
    decreases |bs| - i
  {
    if i + 1 >= |bs| then bs
    else if bs[i].free && bs[i + 1].free then Coalesce(Join(bs, i, h), i, h)
    else Coalesce(bs, i + 1, h)
  }

  function MarkFree(bs: seq<Block>, k: nat): seq<Block>
    requires k < |bs|
  {
    bs[k := bs[k].(free := true)]
  }

  function Release(bs: seq<Block>, k: nat, h: HeaderSize): seq<Block>
    requires k < |bs|
  {
    Coalesce(MarkFree(bs, k), 0, h)
  }

  lemma JoinKeepsLive(bs: seq<Block>, i: nat, h: HeaderSize)
    requires i + 1 < |bs| && bs[i].free && bs[i + 1].free
    ensures Live(Join(bs, i, h)) == Live(bs)
  {
    var js := Join(bs, i, h);
    forall b | b in Live(bs) ensures b in Live(js) {
      var j :| 0 <= j < |bs| && bs[j] == b;
      assert js[if j < i then j else j - 1] == b;
    }
    forall b | b in Live(js) ensures b in Live(bs) {
      var j :| 0 <= j < |js| && js[j] == b;
      assert bs[if j < i then j else j + 1] == b;
    }
  }

  lemma JoinTiles(bs: seq<Block>, i: nat, h: HeaderSize)
    requires Tiles(bs, h) && i + 1 < |bs| && bs[i].free && bs[i + 1].free
    ensures Tiles(Join(bs, i, h), h)
    ensures CoalescedBelow(bs, i) ==> CoalescedBelow(Join(bs, i, h), i)
    ensures Aligned(bs) ==> Aligned(Join(bs, i, h))
  {
    var js := Join(bs, i, h);
    assert Adjacent(bs, i, h);
    forall j | 0 <= j < |js| - 1 ensures Adjacent(js, j, h) {
      assert Adjacent(bs, if j < i then j else j + 1, h);
    }
    if CoalescedBelow(bs, i) {
      JoinCoalesced(bs, i, h);
    }
    if Aligned(bs) {
      JoinAligned(bs, i, h);
    }
  }

  lemma JoinCoalesced(bs: seq<Block>, i: nat, h: HeaderSize)
    requires i + 1 < |bs| && CoalescedBelow(bs, i) && bs[i].free
    ensures CoalescedBelow(Join(bs, i, h), i)
  {
    forall j | 0 <= j < i ensures !FreePair(Join(bs, i, h), j) {
      assert !FreePair(bs, j);
    }
  }

  lemma JoinAligned(bs: seq<Block>, i: nat, h: HeaderSize)
    requires i + 1 < |bs| && Aligned(bs)
    ensures Aligned(Join(bs, i, h))
  {
    var js := Join(bs, i, h);
    forall j | 0 <= j < |js| ensures js[j].size % 4 == 0 {
      if j == i {
        SumAligned(bs[i].size, h, bs[i + 1].size);
      } else {
        assert js[j] == bs[if j < i then j else j + 1];
      }
    }
  }

  lemma SumAligned(a: nat, b: nat, c: nat)
    requires a % 4 == 0 && b % 4 == 0 && c % 4 == 0
    ensures (a + b + c) % 4 == 0
  {
    assert a + b + c == 4 * (a / 4 + b / 4 + c / 4);
  }

  /** Whatever tiling it starts from, the pass yields a well-formed list of the same allocations. */
  lemma {:induction false} CoalesceIsWf(bs: seq<Block>, i: nat, h: HeaderSize)
    requires Tiles(bs, h) && Aligned(bs) && CoalescedBelow(bs, i)
    ensures Wf(Coalesce(bs, i, h), h)
    ensures Live(Coalesce(bs, i, h)) == Live(bs)
    decreases |bs| - i
  {
    if i + 1 < |bs| {
      if bs[i].free && bs[i + 1].free {
        JoinTiles(bs, i, h);
        JoinKeepsLive(bs, i, h);
        CoalesceIsWf(Join(bs, i, h), i, h);
      } else {
        CoalesceIsWf(bs, i + 1, h);
      }
    }
  }

  lemma ReleaseRemovesOne(bs: seq<Block>, k: nat, h: HeaderSize)
    requires Wf(bs, h) && k < |bs| && !bs[k].free
    ensures Wf(Release(bs, k, h), h)
    ensures Live(Release(bs, k, h)) == Live(bs) - {bs[k]}
  {
    var ms := MarkFree(bs, k);
    forall j | 0 <= j < |ms| - 1 ensures Adjacent(ms, j, h) {
      assert Adjacent(bs, j, h);
    }
    CoalesceIsWf(ms, 0, h);
    forall b | b in Live(bs) && b != bs[k] ensures b in Live(ms) {
      var j :| 0 <= j < |bs| && bs[j] == b;
      assert ms[j] == b;
    }
    forall b | b in Live(ms) ensures b in Live(bs) && b != bs[k] {
      var j :| 0 <= j < |ms| && ms[j] == b;
      if b == bs[k] {
        OffsetIsIdentity(bs, h, j, k);
        assert false;
      }
    }
  }
}
