/**
  How the block list is stored: headers and payload bytes share one array (heap_memory in
  src/kernel/memory.c), so every statement about the list is also a statement about aliasing.
*/
module HeapMemory {
  import opened Blocks

  const NULL: int := -1
  const MEMORY_MAGIC: bv32 := 0xDEADBEEF

  /** memory_block_t; next is the offset of the next header. */
  datatype Header = Header(size: nat, isFree: bool, next: int, magic: bv32)

  /** One byte of the heap. A header takes sizeof(memory_block_t) of them: the first carries the
      record and the others are its inner bytes. Overwriting any of them destroys the header. */
  datatype Cell = Byte(b: bv8) | Head(hdr: Header) | Inner

  type Memory = seq<Cell>

  /** An undamaged header starts at o, whether or not the list still reaches it. */
  predicate Intact(m: Memory, o: int, h: HeaderSize) {
    && 0 <= o && o + h <= |m|
    && m[o].Head?
    && forall k :: o < k < o + h ==> m[k] == Inner
  }

  function NextOf(bs: seq<Block>, i: nat): int {
    if i + 1 < |bs| then bs[i + 1].off else NULL
  }

  function HeaderOf(bs: seq<Block>, i: nat): Header
    requires i < |bs|
  {
    Header(bs[i].size, bs[i].free, NextOf(bs, i), MEMORY_MAGIC)
  }

  ghost predicate HeaderStored(m: Memory, bs: seq<Block>, i: nat, h: HeaderSize)
    requires i < |bs|
  {
    Intact(m, bs[i].off, h) && m[bs[i].off].hdr == HeaderOf(bs, i)
  }

  /** The headers in memory are linked into exactly this list. */
  ghost predicate Linked(m: Memory, bs: seq<Block>, h: HeaderSize) {
    && |m| == HEAP_SIZE
    && forall i :: 0 <= i < |bs| ==> HeaderStored(m, bs, i, h)
  }

  ghost predicate Listed(bs: seq<Block>, o: int) {
    exists i :: 0 <= i < |bs| && bs[i].off == o
  }

  /** Every header ever written keeps its magic, and one that is marked used is in the list: what
      lies outside the list are the headers of blocks absorbed by a merge, still marked free. */
  ghost predicate StaleAreFree(m: Memory, bs: seq<Block>) {
    forall o :: 0 <= o < |m| && m[o].Head? ==>
                  m[o].hdr.magic == MEMORY_MAGIC && (m[o].hdr.isFree || Listed(bs, o))
  }

  ghost predicate Stores(m: Memory, bs: seq<Block>, h: HeaderSize) {
    Linked(m, bs, h) && StaleAreFree(m, bs)
  }

  /** The payload of b reads the same in both memories. */
  ghost predicate SamePayload(m: Memory, m': Memory, b: Block, h: HeaderSize)
    requires End(b, h) <= |m| == |m'|
  {
    forall k :: Payload(b, h) <= k < End(b, h) ==> m'[k] == m[k]
  }

  ghost predicate InHeap(live: set<Block>, h: HeaderSize) {
    forall b :: b in live ==> End(b, h) <= HEAP_SIZE
  }

  ghost predicate SamePayloads(m: Memory, m': Memory, live: set<Block>, h: HeaderSize) {
    && |m| == |m'| == HEAP_SIZE
    && InHeap(live, h)
    && forall b :: b in live ==> SamePayload(m, m', b, h)
  }

  /** What releasing may change: sizes, links and free flags of headers, the flag only upwards. */
  ghost predicate OnlyReleases(m: Memory, m': Memory) {
    && |m| == |m'|
    && forall o :: 0 <= o < |m| ==>
                     if m[o].Head?
                     then m'[o].Head? && m'[o].hdr.magic == m[o].hdr.magic && (m[o].hdr.isFree ==> m'[o].hdr.isFree)
                     else m'[o] == m[o]
  }

  /** The n bytes at dst are those that were at src. */
  ghost predicate Copied(m: Memory, src: int, m': Memory, dst: int, n: nat) {
    && 0 <= src && src + n <= |m|
    && 0 <= dst && dst + n <= |m'|
    && forall o :: dst <= o < dst + n ==> m'[o] == m[src + (o - dst)]
  }

  /** The n cells at p hold plain bytes. */
  ghost predicate ByteRange(m: Memory, p: int, n: nat) {
    && 0 <= p && p + n <= |m|
    && forall o :: p <= o < p + n ==> m[o].Byte?
  }

  /** A pointer to o + h would be recognised as already free. */
  ghost predicate ReadsAsFree(m: Memory, o: int, h: HeaderSize) {
    Intact(m, o, h) && m[o].hdr.isFree && m[o].hdr.magic == MEMORY_MAGIC
  }

  lemma LiveInHeap(bs: seq<Block>, h: HeaderSize)
    requires Tiles(bs, h)
    ensures InHeap(Live(bs), h)
  {
    forall b | b in Live(bs) ensures End(b, h) <= HEAP_SIZE {
      var i :| 0 <= i < |bs| && bs[i] == b;
      BlockInHeap(bs, h, i);
    }
  }

  /** Two memories that differ only between lo and hi. */
  ghost predicate SameOutside(m: Memory, m': Memory, lo: int, hi: int) {
    |m'| == |m| && forall o :: 0 <= o < |m| && !(lo <= o < hi) ==> m'[o] == m[o]
  }

  lemma BlocksApart(bs: seq<Block>, h: HeaderSize, i: nat, j: nat)
    requires Tiles(bs, h) && i < |bs| && j < |bs| && i != j
    ensures End(bs[i], h) <= bs[j].off || End(bs[j], h) <= bs[i].off
  {
    if i < j {
      BlocksAreDisjoint(bs, h, i, j);
    } else {
      BlocksAreDisjoint(bs, h, j, i);
    }
  }

  /** Changes inside block k reach neither the header nor the payload of another block. */
  lemma OtherBlock(m: Memory, m': Memory, bs: seq<Block>, k: nat, i: nat, h: HeaderSize)
    requires Tiles(bs, h) && Linked(m, bs, h) && k < |bs| && i < |bs| && i != k
    requires SameOutside(m, m', bs[k].off, End(bs[k], h))
    ensures End(bs[i], h) <= |m|
    ensures HeaderStored(m', bs, i, h)
    ensures SamePayload(m, m', bs[i], h)
  {
    BlocksApart(bs, h, i, k);
    BlockInHeap(bs, h, i);
    assert HeaderStored(m, bs, i, h);
  }

  lemma OtherPayloads(m: Memory, m': Memory, bs: seq<Block>, k: nat, h: HeaderSize)
    requires Tiles(bs, h) && Linked(m, bs, h) && k < |bs|
    requires SameOutside(m, m', bs[k].off, End(bs[k], h))
    ensures SamePayloads(m, m', Live(bs) - {bs[k]}, h)
  {
    LiveInHeap(bs, h);
    forall b | b in Live(bs) - {bs[k]} ensures SamePayload(m, m', b, h) {
      var i :| 0 <= i < |bs| && bs[i] == b;
      OtherBlock(m, m', bs, k, i, h);
    }
  }

  /** Changing bytes inside one block's payload, to anything but headers marked used, leaves the
      list and every other payload alone. */
  lemma PayloadWrite(m: Memory, m': Memory, bs: seq<Block>, k: nat, h: HeaderSize)
    requires Tiles(bs, h) && Stores(m, bs, h) && k < |bs|
    requires SameOutside(m, m', Payload(bs[k], h), End(bs[k], h))
    requires forall o :: Payload(bs[k], h) <= o < End(bs[k], h) && o < |m| && m'[o].Head? ==>
                           m'[o].hdr.isFree && m'[o].hdr.magic == MEMORY_MAGIC
    ensures Stores(m', bs, h)
    ensures SamePayloads(m, m', Live(bs) - {bs[k]}, h)
  {
    OtherPayloads(m, m', bs, k, h);
    forall i | 0 <= i < |bs| ensures HeaderStored(m', bs, i, h) {
      if i == k {
        assert HeaderStored(m, bs, k, h);
      } else {
        OtherBlock(m, m', bs, k, i, h);
      }
    }
  }

  /** The cells of live payloads are never the headers of listed blocks. */
  lemma PayloadHeadsAreStale(m: Memory, bs: seq<Block>, k: nat, o: nat, h: HeaderSize)
    requires Tiles(bs, h) && Stores(m, bs, h) && k < |bs|
    requires Payload(bs[k], h) <= o < End(bs[k], h) <= |m| && m[o].Head?
    ensures m[o].hdr.isFree && m[o].hdr.magic == MEMORY_MAGIC
  {
    if Listed(bs, o) {
      var j :| 0 <= j < |bs| && bs[j].off == o;
      if j != k {
        BlocksApart(bs, h, j, k);
      }
      assert false;
    }
  }

  lemma PayloadHeadsAllStale(m: Memory, bs: seq<Block>, k: nat, h: HeaderSize)
    requires Tiles(bs, h) && Stores(m, bs, h) && k < |bs| && End(bs[k], h) <= |m|
    ensures forall o :: Payload(bs[k], h) <= o < End(bs[k], h) && m[o].Head? ==>
                          m[o].hdr.isFree && m[o].hdr.magic == MEMORY_MAGIC
  {
    forall o | Payload(bs[k], h) <= o < End(bs[k], h) && m[o].Head?
      ensures m[o].hdr.isFree && m[o].hdr.magic == MEMORY_MAGIC
    {
      PayloadHeadsAreStale(m, bs, k, o, h);
    }
  }

  lemma HeaderWritePayloads(m: Memory, bs: seq<Block>, k: nat, hdr: Header, h: HeaderSize)
    requires Tiles(bs, h) && Linked(m, bs, h) && k < |bs| && bs[k].off < |m|
    ensures SamePayloads(m, m[bs[k].off := Head(hdr)], Live(bs), h)
  {
    var m' := m[bs[k].off := Head(hdr)];
    OtherPayloads(m, m', bs, k, h);
    BlockInHeap(bs, h, k);
    assert SamePayload(m, m', bs[k], h);
    LiveInHeap(bs, h);
  }

  /** Rewriting the header of block k in place. */
  lemma HeaderWrite(m: Memory, bs: seq<Block>, k: nat, b: Block, hdr: Header, h: HeaderSize)
    requires Tiles(bs, h) && Stores(m, bs, h) && k < |bs| && bs[k].off < |m|
    requires b.off == bs[k].off && hdr == HeaderOf(bs[k := b], k)
    ensures Stores(m[bs[k].off := Head(hdr)], bs[k := b], h)
    ensures SamePayloads(m, m[bs[k].off := Head(hdr)], Live(bs), h)
  {
    var m', bs' := m[bs[k].off := Head(hdr)], bs[k := b];
    HeaderWritePayloads(m, bs, k, hdr, h);
    forall i | 0 <= i < |bs'| ensures HeaderStored(m', bs', i, h) {
      if i == k {
        assert HeaderStored(m, bs, k, h);
      } else {
        OtherBlock(m, m', bs, k, i, h);
        assert HeaderOf(bs', i) == HeaderOf(bs, i);
      }
    }
    ListedStay(bs, bs', k);
    assert bs'[k].off == bs[k].off;
  }

  lemma ListedStay(bs: seq<Block>, bs': seq<Block>, k: nat)
    requires |bs'| == |bs| && k < |bs| && bs'[k].off == bs[k].off
    requires forall j :: 0 <= j < |bs| && j != k ==> bs'[j] == bs[j]
    ensures forall o :: Listed(bs, o) ==> Listed(bs', o)
  {
    forall o | Listed(bs, o) ensures Listed(bs', o) {
      var j :| 0 <= j < |bs| && bs[j].off == o;
      assert bs'[j].off == o;
    }
  }

  /** Absorbing the next block takes one header update; the absorbed header stays behind. */
  lemma JoinWrite(m: Memory, bs: seq<Block>, i: nat, h: HeaderSize)
    requires Tiles(bs, h) && Stores(m, bs, h) && i + 1 < |bs| && bs[i].free && bs[i + 1].free
    requires bs[i].off < |m|
    ensures Tiles(Join(bs, i, h), h)
    ensures var m' := m[bs[i].off := Head(HeaderOf(Join(bs, i, h), i))];
            Stores(m', Join(bs, i, h), h) && SamePayloads(m, m', Live(bs), h) && OnlyReleases(m, m')
  {
    var js := Join(bs, i, h);
    var hdr := HeaderOf(js, i);
    JoinTiles(bs, i, h);
    assert HeaderStored(m, bs, i, h);
    HeaderWritePayloads(m, bs, i, hdr, h);
    JoinLinked(m, bs, i, h);
    JoinStale(m, bs, i, h);
  }

  lemma JoinLinked(m: Memory, bs: seq<Block>, i: nat, h: HeaderSize)
    requires Tiles(bs, h) && Linked(m, bs, h) && i + 1 < |bs| && bs[i].off < |m|
    ensures Linked(m[bs[i].off := Head(HeaderOf(Join(bs, i, h), i))], Join(bs, i, h), h)
  {
    var js := Join(bs, i, h);
    var m' := m[bs[i].off := Head(HeaderOf(js, i))];
    forall j | 0 <= j < |js| ensures HeaderStored(m', js, j, h) {
      if j == i {
        assert HeaderStored(m, bs, i, h);
      } else {
        var j' := if j < i then j else j + 1;
        assert js[j] == bs[j'];
        OtherBlock(m, m', bs, i, j', h);
        assert NextOf(js, j) == NextOf(bs, j');
      }
    }
  }

  lemma JoinStale(m: Memory, bs: seq<Block>, i: nat, h: HeaderSize)
    requires Stores(m, bs, h) && i + 1 < |bs| && bs[i].free && bs[i + 1].free && bs[i].off < |m|
    ensures StaleAreFree(m[bs[i].off := Head(HeaderOf(Join(bs, i, h), i))], Join(bs, i, h))
  {
    var js := Join(bs, i, h);
    var m' := m[bs[i].off := Head(HeaderOf(js, i))];
    forall o | 0 <= o < |m'| && m'[o].Head?
      ensures m'[o].hdr.magic == MEMORY_MAGIC && (m'[o].hdr.isFree || Listed(js, o))
    {
      if o != bs[i].off && !m[o].hdr.isFree {
        var j :| 0 <= j < |bs| && bs[j].off == o;
        assert HeaderStored(m, bs, j, h);
        assert js[if j <= i then j else j - 1].off == o;
      }
    }
  }

  /** Splitting writes a whole new header inside the old payload and then updates the old one. */
  ghost predicate SplitWritten(m: Memory, m': Memory, bs: seq<Block>, k: nat, n: nat, h: HeaderSize)
    requires k < |bs| && Splits(bs[k], n, h)
  {
    var ss, o := Split(bs, k, n, h), bs[k].off + h + n;
    && |m'| == |m| == HEAP_SIZE
    && End(bs[k], h) <= |m|
    && Intact(m', o, h) && m'[o].hdr == HeaderOf(ss, k + 1)
    && m'[bs[k].off] == Head(HeaderOf(ss, k))
    && forall j :: 0 <= j < |m| && j != bs[k].off && !(o <= j < o + h) ==> m'[j] == m[j]
  }

  lemma SplitWrite(m: Memory, m': Memory, bs: seq<Block>, k: nat, n: nat, h: HeaderSize)
    requires Tiles(bs, h) && Stores(m, bs, h) && k < |bs| && bs[k].free && Splits(bs[k], n, h)
    requires SplitWritten(m, m', bs, k, n, h)
    ensures Tiles(Split(bs, k, n, h), h) && Stores(m', Split(bs, k, n, h), h)
    ensures SamePayloads(m, m', Live(bs), h)
  {
    OtherPayloads(m, m', bs, k, h);
    assert Live(bs) - {bs[k]} == Live(bs);
    SplitTiles(bs, k, n, h);
    SplitLinked(m, m', bs, k, n, h);
    SplitStale(m, m', bs, k, n, h);
  }

  lemma SplitTiles(bs: seq<Block>, k: nat, n: nat, h: HeaderSize)
    requires Tiles(bs, h) && k < |bs| && Splits(bs[k], n, h)
    ensures Tiles(Split(bs, k, n, h), h)
  {
    var ss := Split(bs, k, n, h);
    forall j | 0 <= j < |ss| - 1 ensures Adjacent(ss, j, h) {
      if j < k {
        assert Adjacent(bs, j, h);
      } else if j > k {
        assert ss[j + 1] == bs[j] && (j > k + 1 ==> ss[j] == bs[j - 1]);
        assert Adjacent(bs, j - 1, h);
      }
    }
  }

  lemma SplitStale(m: Memory, m': Memory, bs: seq<Block>, k: nat, n: nat, h: HeaderSize)
    requires StaleAreFree(m, bs) && k < |bs| && Splits(bs[k], n, h) && SplitWritten(m, m', bs, k, n, h)
    ensures StaleAreFree(m', Split(bs, k, n, h))
  {
    var ss, o := Split(bs, k, n, h), bs[k].off + h + n;
    forall p | Listed(bs, p) ensures Listed(ss, p) {
      var j :| 0 <= j < |bs| && bs[j].off == p;
      assert ss[if j <= k then j else j + 1].off == p;
    }
    assert ss[k].off == bs[k].off && ss[k + 1].off == o;
  }

  lemma SplitKeepsHeader(bs: seq<Block>, k: nat, n: nat, j: nat, h: HeaderSize)
    requires k < |bs| && Splits(bs[k], n, h) && j < |Split(bs, k, n, h)| && j != k && j != k + 1
    ensures var j' := if j < k then j else j - 1;
            Split(bs, k, n, h)[j] == bs[j'] && HeaderOf(Split(bs, k, n, h), j) == HeaderOf(bs, j')
  {
  }

  lemma SplitLinked(m: Memory, m': Memory, bs: seq<Block>, k: nat, n: nat, h: HeaderSize)
    requires Tiles(bs, h) && Linked(m, bs, h) && k < |bs| && Splits(bs[k], n, h)
    requires SplitWritten(m, m', bs, k, n, h)
    ensures Linked(m', Split(bs, k, n, h), h)
  {
    var ss := Split(bs, k, n, h);
    forall j | 0 <= j < |ss| ensures HeaderStored(m', ss, j, h) {
      if j == k {
        assert HeaderStored(m, bs, k, h);
      } else if j != k + 1 {
        var j' := if j < k then j else j - 1;
        SplitKeepsHeader(bs, k, n, j, h);
        OtherBlock(m, m', bs, k, j', h);
      }
    }
  }

  lemma SamePayloadsTrans(m: Memory, m': Memory, m'': Memory,
                          first: set<Block>, second: set<Block>, live: set<Block>, h: HeaderSize)
    requires SamePayloads(m, m', first, h) && SamePayloads(m', m'', second, h)
    requires live <= first && live <= second
    ensures SamePayloads(m, m'', live, h)
  {
    forall b | b in live ensures SamePayload(m, m'', b, h) {
      assert SamePayload(m, m', b, h) && SamePayload(m', m'', b, h);
    }
  }

  /** A pointer that has been released keeps being recognised as such, however many releases of
      other blocks follow. */
  lemma StillReadsAsFree(m: Memory, m': Memory, o: int, h: HeaderSize)
    requires ReadsAsFree(m, o, h) && OnlyReleases(m, m')
    ensures ReadsAsFree(m', o, h)
  {
  }
}
