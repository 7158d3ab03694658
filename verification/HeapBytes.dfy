/** The block sequence as it lies in memory: headers among the data, and what writing a header changes. */
module HeapBytes {
  import opened Words
  import opened Sram
  import opened HeapBlocks
  import opened HeapHeader

  /** Memory with the bytes d written at address a. */
  function Patch(m: Memory, a: nat, d: seq<u8>): (r: Memory)
    requires a + |d| <= SRAM_SIZE
    ensures forall x | 0 <= x < SRAM_SIZE :: r[x] == if a <= x < a + |d| then d[x - a] else m[x]
  {
    m[..a] + d + m[a + |d|..]
  }

  ghost predicate HeaderAt(m: Memory, a: nat, b: Block) {
    a + HEADER_SIZE <= SRAM_SIZE && b.size < 0x1_0000_0000 && m[a..a + HEADER_SIZE] == Encode(Stored(b))
  }

  /** Walking the headers from address 0 meets exactly these blocks and ends exactly at the heap's end. */
  ghost predicate Tiles(m: Memory, bs: seq<Block>) {
    WellFormed(bs) && forall i: nat | i < |bs| :: HeaderAt(m, Addr(bs, i), bs[i])
  }

  /** Every block lies inside the heap, and only the end of the last one is the heap's end. */
  lemma BlockInside(bs: seq<Block>, i: nat)
    requires WellFormed(bs) && i <= |bs|
    ensures i < |bs| ==> Addr(bs, i) + HEADER_SIZE + bs[i].size <= HEAP_TOTAL_SIZE
    ensures Addr(bs, i) < HEAP_TOTAL_SIZE <==> i < |bs|
    ensures Addr(bs, i) <= HEAP_TOTAL_SIZE
  {
    AddrEnds(bs);
    if i < |bs| {
      assert BlockOk(bs[i]);
      AddrOrder(bs, i, |bs|);
    }
  }

  // ---------- Live data ----------

  predicate InData(bs: seq<Block>, i: nat, x: nat) {
    i < |bs| && !bs[i].free && Addr(bs, i) + HEADER_SIZE <= x < Addr(bs, i) + HEADER_SIZE + bs[i].size
  }

  ghost predicate LiveByte(bs: seq<Block>, x: nat) { exists i: nat :: InData(bs, i, x) }

  /** A live byte lies in no header and in no free block. */
  lemma LiveByteAway(bs: seq<Block>, x: nat, i: nat)
    requires LiveByte(bs, x) && i < |bs|
    ensures x < Addr(bs, i) || x >= Addr(bs, i) + HEADER_SIZE
    ensures bs[i].free ==> x < Addr(bs, i) || x >= Addr(bs, i) + HEADER_SIZE + bs[i].size
  {
    var j: nat :| InData(bs, j, x);
    if j < i { AddrOrder(bs, j, i); }
    if i < j { AddrOrder(bs, i, j); }
  }

  /** Live data of different blocks is disjoint. */
  lemma LiveDataDisjoint(bs: seq<Block>, i: nat, j: nat, x: nat)
    requires InData(bs, i, x) && InData(bs, j, x)
    ensures i == j
  {
    if i < j { AddrOrder(bs, i, j); }
    if j < i { AddrOrder(bs, j, i); }
  }

  // ---------- Writing headers ----------

  lemma PatchMissesHeader(m: Memory, a: nat, d: seq<u8>, c: nat, b: Block)
    requires a + |d| <= SRAM_SIZE && HeaderAt(m, c, b) && (c + HEADER_SIZE <= a || a + |d| <= c)
    ensures HeaderAt(Patch(m, a, d), c, b)
  {
    assert Patch(m, a, d)[c..c + HEADER_SIZE] == m[c..c + HEADER_SIZE];
  }

  lemma PatchWritesHeader(m: Memory, a: nat, b: Block)
    requires a + HEADER_SIZE <= SRAM_SIZE && b.size < 0x1_0000_0000
    ensures HeaderAt(Patch(m, a, Encode(Stored(b))), a, b)
  {
    assert Patch(m, a, Encode(Stored(b)))[a..a + HEADER_SIZE] == Encode(Stored(b));
  }

  /** Rewriting the header of block i without changing its size. */
  lemma RewriteHeader(m: Memory, bs: seq<Block>, i: nat, b: Block)
    requires Tiles(m, bs) && i < |bs| && b.size == bs[i].size && BlockOk(b)
    ensures Addr(bs, i) + HEADER_SIZE <= SRAM_SIZE && b.size < 0x1_0000_0000
    ensures Tiles(Patch(m, Addr(bs, i), Encode(Stored(b))), bs[i := b])
    ensures forall j: nat | j <= |bs| :: Addr(bs[i := b], j) == Addr(bs, j)
  {
    hide Encode, Patch;
    BlockInside(bs, i);
    SameSizeAddrs(bs, i, b);
    AddrEnds(bs);
    AddrEnds(bs[i := b]);
    hide Span, Addr;
    forall j: nat | j < |bs|
      ensures HeaderAt(Patch(m, Addr(bs, i), Encode(Stored(b))), Addr(bs, j), bs[i := b][j])
    {
      RewrittenHeader(m, bs, i, b, j);
    }
    hide HeaderAt;
  }

  lemma SameSizeAddrs(bs: seq<Block>, i: nat, b: Block)
    requires i < |bs| && b.size == bs[i].size
    ensures forall j: nat | j <= |bs| :: Addr(bs[i := b], j) == Addr(bs, j)
  {
    forall j: nat | j <= |bs|
      ensures Addr(bs[i := b], j) == Addr(bs, j)
    {
      SameSizesSameSpan(bs[i := b][..j], bs[..j]);
    }
  }

  lemma RewrittenHeader(m: Memory, bs: seq<Block>, i: nat, b: Block, j: nat)
    requires Tiles(m, bs) && i < |bs| && j < |bs| && b.size == bs[i].size
    requires Addr(bs, i) + HEADER_SIZE <= SRAM_SIZE && b.size < 0x1_0000_0000
    ensures HeaderAt(Patch(m, Addr(bs, i), Encode(Stored(b))), Addr(bs, j), bs[i := b][j])
  {
    hide Addr, Encode, Patch, HeaderAt;
    if j == i {
      PatchWritesHeader(m, Addr(bs, i), b);
    } else {
      if j < i { AddrOrder(bs, j, i); } else { AddrOrder(bs, i, j); }
      assert HeaderAt(m, Addr(bs, j), bs[j]);
      PatchMissesHeader(m, Addr(bs, i), Encode(Stored(b)), Addr(bs, j), bs[j]);
    }
  }

  // ---------- Splitting ----------

  lemma AllocatedAddr(bs: seq<Block>, i: nat, size: u16, owner: u8, j: nat)
    requires i < |bs| && HeapBlocks.Fits(bs[i], size) && SplitSafe(bs[i].size, size) && Splits(bs[i].size, size)
    requires j <= |bs| + 1
    ensures |Allocated(bs, i, size, owner)| == |bs| + 1
    ensures Addr(Allocated(bs, i, size, owner), j)
         == if j <= i then Addr(bs, j) else if j == i + 1 then Addr(bs, i) + HEADER_SIZE + size else Addr(bs, j - 1)
  {
    var r := Allocated(bs, i, size, owner);
    if j <= i {
      assert r[..j] == bs[..j];
    } else if j == i + 1 {
      assert r[..i] == bs[..i];
      AddrNext(r, i);
    } else {
      assert r[..i] == bs[..i];
      AddrNext(r, i);
      AddrNext(r, i + 1);
      AddrNext(bs, i);
      assert r[..j] == r[..i + 2] + bs[i + 1..j - 1];
      assert bs[..j - 1] == bs[..i + 1] + bs[i + 1..j - 1];
      SpanConcat(r[..i + 2], bs[i + 1..j - 1]);
      SpanConcat(bs[..i + 1], bs[i + 1..j - 1]);
    }
  }

  lemma AllocatedAt(bs: seq<Block>, i: nat, size: u16, owner: u8, j: nat)
    requires i < |bs| && HeapBlocks.Fits(bs[i], size) && SplitSafe(bs[i].size, size) && Splits(bs[i].size, size)
    requires j <= |bs|
    ensures |Allocated(bs, i, size, owner)| == |bs| + 1
    ensures Allocated(bs, i, size, owner)[j] ==
      if j < i then bs[j]
      else if j == i then Block(size, false, owner)
      else if j == i + 1 then Block(bs[i].size - size - HEADER_SIZE, true, 0)
      else bs[j - 1]
  {
  }

  /** What `malloc` writes when block i serves the request; the remainder's size is a 32-bit difference. */
  function MallocWrites(m: Memory, a: nat, available: nat, size: u16, owner: u8): Memory
    requires a + HEADER_SIZE + available <= HEAP_TOTAL_SIZE && size <= available
  {
    if Splits(available, size)
    then
      var next := Header(Wrap32(available - size - HEADER_SIZE), 1, HEAP_MAGIC, 0);
      Patch(Patch(m, a + HEADER_SIZE + size, Encode(next)), a, Encode(Header(size, 0, HEAP_MAGIC, owner)))
    else Patch(m, a, Encode(Header(available, 0, HEAP_MAGIC, owner)))
  }

  lemma SplitTiles(m: Memory, bs: seq<Block>, i: nat, size: u16, owner: u8)
    requires Tiles(m, bs) && i < |bs| && size > 0 && HeapBlocks.Fits(bs[i], size)
    requires SplitSafe(bs[i].size, size) && Splits(bs[i].size, size)
    requires Addr(bs, i) + HEADER_SIZE + bs[i].size <= HEAP_TOTAL_SIZE
    ensures Tiles(MallocWrites(m, Addr(bs, i), bs[i].size, size, owner), Allocated(bs, i, size, owner))
  {
    var r := Allocated(bs, i, size, owner);
    AllocatedOk(bs, i, size, owner);
    AllocatedAddr(bs, i, size, owner, 0);
    forall j: nat | j < |r|
      ensures HeaderAt(MallocWrites(m, Addr(bs, i), bs[i].size, size, owner), Addr(r, j), r[j])
    {
      SplitHeader(m, bs, i, size, owner, j);
    }
  }

  lemma SplitHeader(m: Memory, bs: seq<Block>, i: nat, size: u16, owner: u8, j: nat)
    requires Tiles(m, bs) && i < |bs| && size > 0 && HeapBlocks.Fits(bs[i], size)
    requires SplitSafe(bs[i].size, size) && Splits(bs[i].size, size)
    requires Addr(bs, i) + HEADER_SIZE + bs[i].size <= HEAP_TOTAL_SIZE && j <= |bs|
    ensures j < |Allocated(bs, i, size, owner)|
    ensures HeaderAt(MallocWrites(m, Addr(bs, i), bs[i].size, size, owner),
                     Addr(Allocated(bs, i, size, owner), j), Allocated(bs, i, size, owner)[j])
  {
    hide Addr, Patch, HeaderAt, Encode, Allocated, WellFormed;
    var a, h := Addr(bs, i), bs[i].size;
    var one, two := Block(size, false, owner), Block(h - size - HEADER_SIZE, true, 0);
    var m1 := Patch(m, a + HEADER_SIZE + size, Encode(Stored(two)));
    AllocatedAddr(bs, i, size, owner, j);
    AllocatedAt(bs, i, size, owner, j);
    if j == i {
      PatchWritesHeader(m1, a, one);
    } else if j == i + 1 {
      PatchWritesHeader(m, a + HEADER_SIZE + size, two);
      PatchMissesHeader(m1, a, Encode(Stored(one)), a + HEADER_SIZE + size, two);
    } else {
      var k := if j < i then j else j - 1;
      if j < i { AddrOrder(bs, j, i); } else { AddrOrder(bs, i, k); }
      PatchMissesHeader(m, a + HEADER_SIZE + size, Encode(Stored(two)), Addr(bs, k), bs[k]);
      PatchMissesHeader(m1, a, Encode(Stored(one)), Addr(bs, k), bs[k]);
    }
  }

  lemma MallocTiles(m: Memory, bs: seq<Block>, i: nat, size: u16, owner: u8)
    requires Tiles(m, bs) && i < |bs| && size > 0 && HeapBlocks.Fits(bs[i], size) && SplitSafe(bs[i].size, size)
    requires Addr(bs, i) + HEADER_SIZE + bs[i].size <= HEAP_TOTAL_SIZE
    ensures Tiles(MallocWrites(m, Addr(bs, i), bs[i].size, size, owner), Allocated(bs, i, size, owner))
  {
    if Splits(bs[i].size, size) {
      SplitTiles(m, bs, i, size, owner);
    } else {
      RewriteHeader(m, bs, i, Block(bs[i].size, false, owner));
    }
  }

  /** What was live stays live, and its bytes keep their values. */
  lemma MallocKeepsLive(m: Memory, bs: seq<Block>, i: nat, size: u16, owner: u8, x: nat)
    requires Tiles(m, bs) && i < |bs| && size > 0 && HeapBlocks.Fits(bs[i], size) && SplitSafe(bs[i].size, size)
    requires Addr(bs, i) + HEADER_SIZE + bs[i].size <= HEAP_TOTAL_SIZE && LiveByte(bs, x) && x < SRAM_SIZE
    ensures MallocWrites(m, Addr(bs, i), bs[i].size, size, owner)[x] == m[x]
    ensures LiveByte(Allocated(bs, i, size, owner), x)
  {
    LiveByteAway(bs, x, i);
    AllocatedLive(bs, i, size, owner, x);
    hide Addr, LiveByte, Tiles, Encode;
  }

  lemma AllocatedLive(bs: seq<Block>, i: nat, size: u16, owner: u8, x: nat)
    requires i < |bs| && HeapBlocks.Fits(bs[i], size) && SplitSafe(bs[i].size, size) && LiveByte(bs, x)
    ensures LiveByte(Allocated(bs, i, size, owner), x)
  {
    var j: nat :| InData(bs, j, x);
    var r := Allocated(bs, i, size, owner);
    if Splits(bs[i].size, size) {
      hide Addr, Allocated;
      var k := if j < i then j else j + 1;
      AllocatedAddr(bs, i, size, owner, k);
      AllocatedAt(bs, i, size, owner, k);
      assert InData(r, k, x);
    } else {
      SameSizesSameSpan(r[..j], bs[..j]);
      assert InData(r, j, x);
    }
  }

  // ---------- The unsafe split ----------

  /** The requests that break the heap: the wrapped sum lets a split happen that leaves no room for a header.
      Only when the block is exactly used up at the very end of the heap does the stray header land outside. */
  predicate BreaksHeap(bs: seq<Block>, i: nat, size: u16)
    requires i < |bs|
  {
    !SplitSafe(bs[i].size, size) && Addr(bs, i) + HEADER_SIZE + size < HEAP_TOTAL_SIZE
  }

  /** Two tilings that agree on the headers before block i agree on the blocks before it. */
  lemma {:induction false} SamePrefix(m: Memory, bs: seq<Block>, m': Memory, bs': seq<Block>, i: nat)
    requires Tiles(m, bs) && Tiles(m', bs') && i < |bs|
    requires forall x | 0 <= x < Addr(bs, i) :: m'[x] == m[x]
    ensures i < |bs'| && bs'[..i] == bs[..i]
    decreases i
  {
    hide Addr, Encode, Span;
    AddrEnds(bs);
    AddrEnds(bs');
    if i > 0 {
      AddrOrder(bs, i - 1, i);
      SamePrefix(m, bs, m', bs', i - 1);
      SameAddr(bs, bs', i - 1);
      SameHeader(m, m', Addr(bs, i - 1), bs[i - 1], bs'[i - 1]);
      assert bs'[..i] == bs'[..i - 1] + [bs'[i - 1]] && bs[..i] == bs[..i - 1] + [bs[i - 1]];
    }
    SameAddr(bs, bs', i);
    BlockInside(bs, i);
    BlockInside(bs', i);
  }

  lemma SameAddr(bs: seq<Block>, bs': seq<Block>, i: nat)
    requires i <= |bs| && i <= |bs'| && bs'[..i] == bs[..i]
    ensures Addr(bs', i) == Addr(bs, i)
  {
  }

  lemma SameHeader(m: Memory, m': Memory, a: nat, b: Block, b': Block)
    requires HeaderAt(m, a, b) && HeaderAt(m', a, b')
    requires forall x | a <= x < a + HEADER_SIZE :: m'[x] == m[x]
    ensures b' == b
  {
    assert m'[a..a + HEADER_SIZE] == m[a..a + HEADER_SIZE];
    StoredInjective(b, b');
  }

  /** After a breaking request no sequence of blocks tiles the heap any more. */
  lemma BrokenHeap(m: Memory, bs: seq<Block>, i: nat, size: u16, owner: u8, bs': seq<Block>)
    requires Tiles(m, bs) && i < |bs| && size > 0 && HeapBlocks.Fits(bs[i], size) && BreaksHeap(bs, i, size)
    requires Addr(bs, i) + HEADER_SIZE + bs[i].size <= HEAP_TOTAL_SIZE
    ensures !Tiles(MallocWrites(m, Addr(bs, i), bs[i].size, size, owner), bs')
  {
    hide Span, Encode;
    var a, h := Addr(bs, i), bs[i].size;
    var c := a + HEADER_SIZE + size;
    var m' := MallocWrites(m, a, h, size, owner);
    var first, next := Header(size, 0, HEAP_MAGIC, owner), Header(Wrap32(h - size - HEADER_SIZE), 1, HEAP_MAGIC, 0);
    assert m'[a..a + HEADER_SIZE] == Encode(first);
    assert m'[c..c + HEADER_SIZE] == Encode(next);
    if Tiles(m', bs') {
      SamePrefix(m, bs, m', bs', i);
      SameAddr(bs, bs', i);
      hide Addr, MallocWrites;
      StoredSize(m', a, bs'[i], first);
      AddrNext(bs', i);
      BlockInside(bs', i + 1);
      StoredSize(m', c, bs'[i + 1], next);
      assert false;
    }
  }

  lemma StoredSize(m: Memory, a: nat, b: Block, h: Header)
    requires HeaderAt(m, a, b) && m[a..a + HEADER_SIZE] == Encode(h)
    ensures b.size == h.size
  {
    EncodeInjective(Stored(b), h);
  }

  /** When the unsafe split uses up the last block exactly, the heap is as if it had not been split; the stray header
      overwrites the first bytes after the heap. */
  lemma StrayHeader(m: Memory, bs: seq<Block>, i: nat, size: u16, owner: u8)
    requires Tiles(m, bs) && i < |bs| && size > 0 && HeapBlocks.Fits(bs[i], size)
    requires !SplitSafe(bs[i].size, size) && Addr(bs, i) + HEADER_SIZE + size == HEAP_TOTAL_SIZE
    requires Addr(bs, i) + HEADER_SIZE + bs[i].size <= HEAP_TOTAL_SIZE
    ensures Tiles(MallocWrites(m, Addr(bs, i), bs[i].size, size, owner), bs[i := Block(size, false, owner)])
    ensures MallocWrites(m, Addr(bs, i), bs[i].size, size, owner)[HEAP_TOTAL_SIZE + 5] == HEAP_MAGIC
  {
    hide Span, Addr, Patch;
    var next := Header(Wrap32(bs[i].size - size - HEADER_SIZE), 1, HEAP_MAGIC, 0);
    var m1 := Patch(m, HEAP_TOTAL_SIZE, Encode(next));
    assert Encode(next)[5] == HEAP_MAGIC;
    hide Encode;
    forall j: nat | j < |bs|
      ensures HeaderAt(m1, Addr(bs, j), bs[j])
    {
      assert HeaderAt(m, Addr(bs, j), bs[j]);
      BlockInside(bs, j);
      PatchMissesHeader(m, HEAP_TOTAL_SIZE, Encode(next), Addr(bs, j), bs[j]);
    }
    hide HeaderAt;
    assert Tiles(m1, bs);
    RewriteHeader(m1, bs, i, Block(size, false, owner));
  }

  /** A served request leaves headers that tile the heap iff it is not a breaking one. */
  lemma MallocKeepsHeapIff(m: Memory, bs: seq<Block>, i: nat, size: u16, owner: u8)
    requires Tiles(m, bs) && i < |bs| && size > 0 && HeapBlocks.Fits(bs[i], size)
    requires Addr(bs, i) + HEADER_SIZE + bs[i].size <= HEAP_TOTAL_SIZE
    ensures (exists bs' :: Tiles(MallocWrites(m, Addr(bs, i), bs[i].size, size, owner), bs'))
       <==> !BreaksHeap(bs, i, size)
  {
    if SplitSafe(bs[i].size, size) {
      MallocTiles(m, bs, i, size, owner);
    } else if BreaksHeap(bs, i, size) {
      forall bs'
        ensures !Tiles(MallocWrites(m, Addr(bs, i), bs[i].size, size, owner), bs')
      {
        BrokenHeap(m, bs, i, size, owner, bs');
      }
    } else {
      StrayHeader(m, bs, i, size, owner);
    }
  }

  // ---------- Merging ----------

  function Merged(bs: seq<Block>, i: nat): seq<Block>
    requires i + 1 < |bs|
  {
    bs[..i] + [Merge(bs[i], bs[i + 1])] + bs[i + 2..]
  }

  lemma MergedAddr(bs: seq<Block>, i: nat, j: nat)
    requires i + 1 < |bs| && j < |bs|
    ensures |Merged(bs, i)| == |bs| - 1
    ensures Addr(Merged(bs, i), j) == if j <= i then Addr(bs, j) else Addr(bs, j + 1)
    ensures j < |bs| - 1 ==>
      Merged(bs, i)[j] == if j < i then bs[j] else if j == i then Merge(bs[i], bs[i + 1]) else bs[j + 1]
  {
    var r := Merged(bs, i);
    if j <= i {
      assert r[..j] == bs[..j];
    } else {
      assert r[..i] == bs[..i];
      AddrNext(r, i);
      AddrNext(bs, i);
      AddrNext(bs, i + 1);
      assert r[..j] == r[..i + 1] + bs[i + 2..j + 1];
      assert bs[..j + 1] == bs[..i + 2] + bs[i + 2..j + 1];
      SpanConcat(r[..i + 1], bs[i + 2..j + 1]);
      SpanConcat(bs[..i + 2], bs[i + 2..j + 1]);
    }
  }

  lemma MergeTiles(m: Memory, bs: seq<Block>, i: nat)
    requires Tiles(m, bs) && i + 1 < |bs| && bs[i].free && bs[i + 1].free
    ensures Addr(bs, i) + HEADER_SIZE <= SRAM_SIZE && Merge(bs[i], bs[i + 1]).size < 0x1_0000_0000
    ensures Tiles(Patch(m, Addr(bs, i), Encode(Stored(Merge(bs[i], bs[i + 1])))), Merged(bs, i))
  {
    BlockInside(bs, i);
    BlockInside(bs, i + 1);
    AddrNext(bs, i);
    MergedOk(bs, i);
    var r := Merged(bs, i);
    hide Addr, Merged, Patch, HeaderAt, Encode, WellFormed;
    forall j: nat | j < |r|
      ensures HeaderAt(Patch(m, Addr(bs, i), Encode(Stored(Merge(bs[i], bs[i + 1])))), Addr(r, j), r[j])
    {
      MergeHeader(m, bs, i, j);
    }
  }

  lemma MergedOk(bs: seq<Block>, i: nat)
    requires WellFormed(bs) && i + 1 < |bs| && bs[i].free && bs[i + 1].free
    ensures WellFormed(Merged(bs, i)) && |Merged(bs, i)| == |bs| - 1
  {
    var r := Merged(bs, i);
    MergedAddr(bs, i, |bs| - 1);
    AddrEnds(bs);
    AddrEnds(r);
    hide Addr, Span, Merged;
    forall j: nat | j < |r|
      ensures BlockOk(r[j])
    {
      MergedAddr(bs, i, j);
      assert BlockOk(bs[if j <= i then j else j + 1]);
    }
  }

  lemma MergeHeader(m: Memory, bs: seq<Block>, i: nat, j: nat)
    requires Tiles(m, bs) && i + 1 < |bs| && bs[i].free && bs[i + 1].free && j < |bs| - 1
    requires Addr(bs, i) + HEADER_SIZE <= SRAM_SIZE && Merge(bs[i], bs[i + 1]).size < 0x1_0000_0000
    ensures |Merged(bs, i)| == |bs| - 1 && BlockOk(Merged(bs, i)[j])
    ensures HeaderAt(Patch(m, Addr(bs, i), Encode(Stored(Merge(bs[i], bs[i + 1])))),
                     Addr(Merged(bs, i), j), Merged(bs, i)[j])
  {
    hide Addr, Span, Merged, Patch, HeaderAt, Encode;
    var b, k := Merge(bs[i], bs[i + 1]), if j <= i then j else j + 1;
    MergedAddr(bs, i, j);
    assert BlockOk(bs[k]);
    if j == i {
      PatchWritesHeader(m, Addr(bs, i), b);
    } else {
      if k < i { AddrOrder(bs, k, i); } else { AddrOrder(bs, i, k); }
      PatchMissesHeader(m, Addr(bs, i), Encode(Stored(b)), Addr(bs, k), bs[k]);
    }
  }

  lemma MergeKeepsLive(m: Memory, bs: seq<Block>, i: nat, x: nat)
    requires i + 1 < |bs| && bs[i].free && bs[i + 1].free && LiveByte(bs, x)
    ensures LiveByte(Merged(bs, i), x)
    ensures x < Addr(bs, i) || x >= Addr(bs, i) + HEADER_SIZE
  {
    LiveByteAway(bs, x, i);
    var j: nat :| InData(bs, j, x);
    var k := if j < i then j else j - 1;
    MergedAddr(bs, i, k);
    assert InData(Merged(bs, i), k, x);
  }
}
