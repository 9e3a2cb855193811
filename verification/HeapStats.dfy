/**
  What the allocator's statistics count (global_stats and calculate_fragmentation in
  src/kernel/memory.c), as functions of the block list.
*/
module HeapStats {
  import opened Blocks

  /** Bytes taken by the free (or by the live) blocks, headers included. */
  function Bytes(bs: seq<Block>, free: bool, h: HeaderSize): nat {
    if bs == [] then 0
    else
      var b := bs[|bs| - 1];
      Bytes(bs[..|bs| - 1], free, h) + if b.free == free then b.size + h else 0
  }

  function Count(bs: seq<Block>, free: bool): nat {
    if bs == [] then 0
    else Count(bs[..|bs| - 1], free) + if bs[|bs| - 1].free == free then 1 else 0
  }

  lemma {:induction false} Concat(a: seq<Block>, b: seq<Block>, free: bool, h: HeaderSize)
    ensures Bytes(a + b, free, h) == Bytes(a, free, h) + Bytes(b, free, h)
    ensures Count(a + b, free) == Count(a, free) + Count(b, free)
  {
    if b == [] {
      assert a + b == a;
    } else {
      Concat(a, b[..|b| - 1], free, h);
      assert (a + b)[..|a + b| - 1] == a + b[..|b| - 1];
    }
  }

  /** Replacing the stretch [i, j) of a list by other blocks. */
  lemma {:induction false} Splice(a: seq<Block>, mid: seq<Block>, mid': seq<Block>, b: seq<Block>,
                                  free: bool, h: HeaderSize)
    ensures Bytes(a + mid' + b, free, h) + Bytes(mid, free, h) == Bytes(a + mid + b, free, h) + Bytes(mid', free, h)
    ensures Count(a + mid' + b, free) + Count(mid, free) == Count(a + mid + b, free) + Count(mid', free)
  {
    Concat(a + mid, b, free, h);
    Concat(a, mid, free, h);
    Concat(a + mid', b, free, h);
    Concat(a, mid', free, h);
  }

  lemma {:induction false} SmallSums(x: Block, y: Block, free: bool, h: HeaderSize)
    ensures Bytes([x], free, h) == if x.free == free then x.size + h else 0
    ensures Bytes([x, y], free, h) == Bytes([x], free, h) + Bytes([y], free, h)
    ensures Count([x], free) == if x.free == free then 1 else 0
    ensures Count([x, y], free) == Count([x], free) + Count([y], free)
  {
    assert [x, y] == [x] + [y];
    Concat([x], [y], free, h);
    assert [x][..0] == [];
  }

  /** Conservation: live and free bytes, headers included, always make up the whole heap. */
  lemma {:induction false} BytesAreConserved(bs: seq<Block>, h: HeaderSize)
    requires Tiles(bs, h)
    ensures Bytes(bs, true, h) + Bytes(bs, false, h) == HEAP_SIZE
  {
    BytesOfPrefix(bs, |bs|, h);
    assert bs[..|bs|] == bs;
  }

  lemma {:induction false} BytesOfPrefix(bs: seq<Block>, k: nat, h: HeaderSize)
    requires Tiles(bs, h) && k <= |bs|
    ensures Bytes(bs[..k], true, h) + Bytes(bs[..k], false, h) == if k == 0 then 0 else End(bs[k - 1], h)
  {
    if k > 0 {
      BytesOfPrefix(bs, k - 1, h);
      assert k > 1 ==> Adjacent(bs, k - 2, h);
      assert bs[..k][..k - 1] == bs[..k - 1];
    }
  }

  lemma {:induction false} GrantCounts(bs: seq<Block>, k: nat, n: nat, h: HeaderSize)
    requires Wf(bs, h) && k < |bs| && Fits(bs[k], n) && n % 4 == 0
    ensures var gs, g := Grant(bs, k, n, h), Granted(bs[k], n, h);
            && Bytes(gs, false, h) == Bytes(bs, false, h) + g.size + h
            && Bytes(gs, true, h) == Bytes(bs, true, h) - g.size - h
            && Count(gs, false) == Count(bs, false) + 1
  {
    var gs, g := Grant(bs, k, n, h), Granted(bs[k], n, h);
    assert bs == bs[..k] + [bs[k]] + bs[k + 1..];
    var mid' := if Splits(bs[k], n, h) then [g, Block(bs[k].off + h + n, bs[k].size - n - h, true)] else [g];
    assert gs == bs[..k] + mid' + bs[k + 1..];
    Splice(bs[..k], [bs[k]], mid', bs[k + 1..], false, h);
    SmallSums(bs[k], g, false, h);
    SmallSums(g, mid'[|mid'| - 1], false, h);
    GrantIsWf(bs, k, n, h);
    BytesAreConserved(bs, h);
    BytesAreConserved(gs, h);
  }

  lemma {:induction false} CoalesceCounts(bs: seq<Block>, i: nat, h: HeaderSize)
    ensures Bytes(Coalesce(bs, i, h), false, h) == Bytes(bs, false, h)
    ensures Count(Coalesce(bs, i, h), false) == Count(bs, false)
    decreases |bs| - i
  {
    if i + 1 < |bs| {
      if bs[i].free && bs[i + 1].free {
        var joined := bs[i].(size := bs[i].size + h + bs[i + 1].size);
        assert bs == bs[..i] + [bs[i], bs[i + 1]] + bs[i + 2..];
        Splice(bs[..i], [bs[i], bs[i + 1]], [joined], bs[i + 2..], false, h);
        SmallSums(bs[i], bs[i + 1], false, h);
        SmallSums(joined, joined, false, h);
        CoalesceCounts(Join(bs, i, h), i, h);
      } else {
        CoalesceCounts(bs, i + 1, h);
      }
    }
  }

  lemma {:induction false} ReleaseCounts(bs: seq<Block>, k: nat, h: HeaderSize)
    requires Wf(bs, h) && k < |bs| && !bs[k].free
    ensures var fs := Release(bs, k, h);
            && Bytes(fs, false, h) == Bytes(bs, false, h) - bs[k].size - h
            && Bytes(fs, true, h) == Bytes(bs, true, h) + bs[k].size + h
            && Count(fs, false) == Count(bs, false) - 1
  {
    var ms, f := MarkFree(bs, k), bs[k].(free := true);
    assert bs == bs[..k] + [bs[k]] + bs[k + 1..];
    assert ms == bs[..k] + [f] + bs[k + 1..];
    Splice(bs[..k], [bs[k]], [f], bs[k + 1..], false, h);
    SmallSums(bs[k], f, false, h);
    SmallSums(f, f, false, h);
    CoalesceCounts(ms, 0, h);
    ReleaseRemovesOne(bs, k, h);
    BytesAreConserved(bs, h);
    BytesAreConserved(Release(bs, k, h), h);
  }

  /** The live count is the number of allocations in force. */
  lemma {:induction false} CountIsLive(bs: seq<Block>, h: HeaderSize)
    requires Tiles(bs, h)
    ensures Count(bs, false) == |Live(bs)|
  {
    LiveInPrefix(bs, h, |bs|);
    assert bs[..|bs|] == bs;
  }

  lemma {:induction false} LiveInPrefix(bs: seq<Block>, h: HeaderSize, k: nat)
    requires Tiles(bs, h) && k <= |bs|
    ensures Count(bs[..k], false) == |Live(bs[..k])|
  {
    if k > 0 {
      LiveInPrefix(bs, h, k - 1);
      assert bs[..k][..k - 1] == bs[..k - 1];
      assert bs[..k] == bs[..k - 1] + [bs[k - 1]];
      NotEarlier(bs, h, k - 1);
      LiveSnoc(bs[..k - 1], bs[k - 1]);
    }
  }

  lemma NotEarlier(bs: seq<Block>, h: HeaderSize, k: nat)
    requires Tiles(bs, h) && k < |bs|
    ensures bs[k] !in Live(bs[..k])
  {
    if bs[k] in Live(bs[..k]) {
      var j :| 0 <= j < k && bs[j] == bs[k];
      OffsetIsIdentity(bs, h, j, k);
      assert false;
    }
  }

  lemma LiveSnoc(bs: seq<Block>, b: Block)
    ensures Live(bs + [b]) == Live(bs) + if b.free then {} else {b}
  {
  }

  // ---------------------------------------------------------------------------------------------
  // Fragmentation
  // ---------------------------------------------------------------------------------------------

  /** With free neighbours merged there is at most one free block more than there are live ones. */
  lemma {:induction false} FreeBlocksAreFew(bs: seq<Block>)
    requires Coalesced(bs)
    ensures Count(bs, true) <= Count(bs, false) + 1
  {
    FreeInPrefix(bs, |bs|);
    assert bs[..|bs|] == bs;
  }

  lemma {:induction false} FreeInPrefix(bs: seq<Block>, k: nat)
    requires Coalesced(bs) && k <= |bs|
    ensures Count(bs[..k], true) <= Count(bs[..k], false) + if k > 0 && bs[k - 1].free then 1 else 0
  {
    if k > 0 {
      FreeInPrefix(bs, k - 1);
      assert bs[..k][..k - 1] == bs[..k - 1];
      if k > 1 {
        assert !FreePair(bs, k - 2);
      }
    }
  }

  /** Payload bytes of the free blocks. */
  function TotalFree(bs: seq<Block>): nat {
    if bs == [] then 0
    else TotalFree(bs[..|bs| - 1]) + if bs[|bs| - 1].free then bs[|bs| - 1].size else 0
  }

  function LargestFree(bs: seq<Block>): nat {
    if bs == [] then 0
    else
      var l, b := LargestFree(bs[..|bs| - 1]), bs[|bs| - 1];
      if b.free && b.size > l then b.size else l
  }

  lemma {:induction false} LargestFreeIsMaximum(bs: seq<Block>)
    ensures forall b :: b in bs && b.free ==> b.size <= LargestFree(bs)
    ensures LargestFree(bs) > 0 ==> exists b :: b in bs && b.free && b.size == LargestFree(bs)
    ensures LargestFree(bs) <= TotalFree(bs) <= Count(bs, true) * LargestFree(bs)
  {
    if bs != [] {
      var init, last := bs[..|bs| - 1], bs[|bs| - 1];
      LargestFreeIsMaximum(init);
      assert bs == init + [last];
      MulMonotone(Count(init, true), LargestFree(init), LargestFree(bs));
      MulSucc(Count(init, true), LargestFree(bs));
    }
  }

  lemma MulMonotone(c: nat, a: nat, b: nat)
    requires a <= b
    ensures c * a <= c * b
  {
    assert c * (b - a) >= 0;
  }

  lemma MulSucc(c: nat, a: nat)
    ensures (c + 1) * a == c * a + a
  {
  }

  /** The reported percentage, in exact arithmetic. */
  function Percent(largest: nat, total: nat): int
    requires total > 0
  {
    ((1.0 - largest as real / total as real) * 100.0).Floor
  }

  /** The figure is the whole number of hundredths of the free bytes outside the largest free block. */
  lemma PercentMeaning(largest: nat, total: nat)
    requires largest <= total && total > 0
    ensures var p := Percent(largest, total); p * total <= 100 * (total - largest) < (p + 1) * total
  {
    var p, share := Percent(largest, total), (1.0 - largest as real / total as real) * 100.0;
    ShareTimes(largest as real, total as real, share);
    AtMostShare(p, total, total - largest, share);
    AboveShare(p + 1, total, total - largest, share);
  }

  lemma AtMostShare(p: int, total: nat, rest: nat, share: real)
    requires p as real <= share && share * total as real == 100.0 * rest as real
    ensures p * total <= 100 * rest
  {
    Scale(p as real, share, total as real);
    RealProduct(p, total);
    RealProduct(100, rest);
  }

  lemma AboveShare(p: int, total: nat, rest: nat, share: real)
    requires share < p as real && total > 0 && share * total as real == 100.0 * rest as real
    ensures 100 * rest < p * total
  {
    ScaleStrict(share, p as real, total as real);
    RealProduct(p, total);
    RealProduct(100, rest);
  }

  lemma ShareTimes(l: real, t: real, share: real)
    requires t > 0.0 && share == (1.0 - l / t) * 100.0
    ensures share * t == 100.0 * (t - l)
  {
    var q := l / t;
    assert q * t == l;
    assert (1.0 - q) * 100.0 * t == 100.0 * (t - q * t);
  }

  lemma RealProduct(a: int, b: int)
    ensures (a * b) as real == a as real * b as real
  {
  }

  lemma ScaleStrict(a: real, b: real, k: real)
    requires a < b && k > 0.0
    ensures a * k < b * k
  {
    assert (b - a) * k > 0.0;
  }

  /** The bytes of the free blocks are those of their payloads and of one header each. */
  lemma {:induction false} FreeBytes(bs: seq<Block>, h: HeaderSize)
    ensures Bytes(bs, true, h) == TotalFree(bs) + Count(bs, true) * h
  {
    if bs != [] {
      FreeBytes(bs[..|bs| - 1], h);
      MulSucc(Count(bs[..|bs| - 1], true), h);
    }
  }

  function Fragmentation(bs: seq<Block>): int {
    if TotalFree(bs) > 0 then Percent(LargestFree(bs), TotalFree(bs)) else 0
  }

  /** With k free blocks the figure is at most 100 * (k - 1) / k. */
  lemma {:induction false} FragmentationBound(bs: seq<Block>)
    ensures 0 <= Fragmentation(bs) < 100
    ensures Count(bs, true) > 0 ==> Fragmentation(bs) * Count(bs, true) <= 100 * (Count(bs, true) - 1)
    ensures Count(bs, true) <= 1 ==> Fragmentation(bs) == 0
  {
    LargestFreeIsMaximum(bs);
    if TotalFree(bs) > 0 {
      PercentBound(LargestFree(bs), TotalFree(bs), Count(bs, true));
    } else {
      MulSucc(Count(bs, true), 0);
    }
  }

  lemma PercentBound(l: nat, t: nat, k: nat)
    requires l <= t <= k * l && t > 0
    ensures k >= 1 && 0 <= Percent(l, t) < 100
    ensures Percent(l, t) * k <= 100 * (k - 1)
  {
    var q, p := l as real / t as real, Percent(l, t);
    ShareBounds(l, t, k);
    assert p as real <= 100.0 - 100.0 * q;
    Scale(p as real, 100.0 - 100.0 * q, k as real);
    assert (100.0 - 100.0 * q) * k as real == 100.0 * k as real - 100.0 * (k as real * q);
    assert (p * k) as real == p as real * k as real;
    assert (p * k) as real <= (100 * (k - 1)) as real;
  }

  lemma Scale(a: real, b: real, k: real)
    requires a <= b && k >= 0.0
    ensures a * k <= b * k
  {
    assert (b - a) * k >= 0.0;
  }

  /** The largest free block is at least a k-th of the free bytes. */
  lemma ShareBounds(l: nat, t: nat, k: nat)
    requires l <= t <= k * l && t > 0
    ensures k >= 1
    ensures 0.0 < l as real / t as real <= 1.0
    ensures k as real * (l as real / t as real) >= 1.0
  {
    var lr, tr, kr := l as real, t as real, k as real;
    assert l > 0 && k > 0;
    assert (k * l) as real == kr * lr;
    assert kr * (lr / tr) == (kr * lr) / tr;
    Quotient(kr * lr, tr);
  }

  lemma Quotient(a: real, t: real)
    requires a >= t > 0.0
    ensures a / t >= 1.0
  {
  }
}
