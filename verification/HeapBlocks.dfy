/** The heap as a sequence of blocks: first fit, split, free and coalescing, and what they keep. */
module HeapBlocks {
  import opened Words

  const HEADER_SIZE := 7
  const HEAP_TOTAL_SIZE := 130048

  datatype Block = Block(size: nat, free: bool, owner: u8)

  /** The bytes the blocks cover, headers included. */
  function Span(bs: seq<Block>): nat {
    if bs == [] then 0 else Span(bs[..|bs| - 1]) + HEADER_SIZE + bs[|bs| - 1].size
  }

  /** Where block i's header starts. */
  function Addr(bs: seq<Block>, i: nat): nat
    requires i <= |bs|
  {
    Span(bs[..i])
  }

  /** Free blocks belong to nobody, and together the blocks are exactly the heap. */
  ghost predicate WellFormed(bs: seq<Block>) {
    Span(bs) == HEAP_TOTAL_SIZE && forall i | 0 <= i < |bs| :: BlockOk(bs[i])
  }

  predicate BlockOk(b: Block) { b.free ==> b.owner == 0 }

  const INITIAL_BLOCKS := [Block(HEAP_TOTAL_SIZE - HEADER_SIZE, true, 0)]

  // ---------- Addresses ----------

  lemma AddrNext(bs: seq<Block>, i: nat)
    requires i < |bs|
    ensures Addr(bs, i + 1) == Addr(bs, i) + HEADER_SIZE + bs[i].size
  {
    assert bs[..i + 1][..i] == bs[..i];
  }

  lemma AddrEnds(bs: seq<Block>)
    ensures Addr(bs, 0) == 0 && Addr(bs, |bs|) == Span(bs)
  {
    assert bs[..|bs|] == bs;
  }

  lemma {:induction false} AddrOrder(bs: seq<Block>, i: nat, j: nat)
    requires i < j <= |bs|
    ensures Addr(bs, i) + HEADER_SIZE + bs[i].size <= Addr(bs, j)
    decreases j
  {
    AddrNext(bs, j - 1);
    if i < j - 1 {
      AddrOrder(bs, i, j - 1);
    }
  }

  lemma {:induction false} SpanConcat(a: seq<Block>, b: seq<Block>)
    ensures Span(a + b) == Span(a) + Span(b)
  {
    if b == [] {
      assert a + b == a;
    } else {
      SpanConcat(a, b[..|b| - 1]);
      assert (a + b)[..|a + b| - 1] == a + b[..|b| - 1];
    }
  }

  lemma SpanOne(b: Block)
    ensures Span([b]) == HEADER_SIZE + b.size
  {
    assert [b][..0] == [];
  }

  lemma SpanSplit(bs: seq<Block>, i: nat)
    requires i < |bs|
    ensures Span(bs) == Span(bs[..i]) + HEADER_SIZE + bs[i].size + Span(bs[i + 1..])
  {
    hide Span;
    assert bs == bs[..i] + ([bs[i]] + bs[i + 1..]);
    SpanConcat(bs[..i], [bs[i]] + bs[i + 1..]);
    SpanConcat([bs[i]], bs[i + 1..]);
    SpanOne(bs[i]);
  }

  // ---------- malloc ----------

  predicate Fits(b: Block, size: nat) { b.free && b.size >= size }

  /** The first free block that is large enough, or |bs|. */
  function FirstFit(bs: seq<Block>, size: nat): (i: nat)
    ensures i <= |bs|
    ensures i < |bs| ==> Fits(bs[i], size)
    ensures forall j | 0 <= j < i :: !Fits(bs[j], size)
  {
    if bs == [] then 0
    else
      var k := |bs| - 1;
      var i := FirstFit(bs[..k], size);
      if i == k && !Fits(bs[k], size) then |bs| else i
  }

  /** A request is served iff some free block has at least the bytes asked for, and then by the first such block. */
  lemma ServedIff(bs: seq<Block>, size: nat)
    ensures var i := FirstFit(bs, size);
      && (i < |bs| <==> exists j :: 0 <= j < |bs| && bs[j].free && bs[j].size >= size)
      && (i < |bs| ==> bs[i].free && bs[i].size >= size)
      && (forall j | 0 <= j < |bs| && bs[j].free && bs[j].size >= size :: i <= j)
  {
    hide FirstFit;
    forall j | 0 <= j < |bs| && bs[j].free && bs[j].size >= size
      ensures FirstFit(bs, size) <= j
    {
      assert Fits(bs[j], size);
    }
  }

  /** The split test of the code, whose right-hand side is a 16-bit sum. */
  predicate Splits(available: nat, size: u16) { available > Wrap16(size + HEADER_SIZE + 4) }

  /** A split leaves room for a header. */
  predicate SplitSafe(available: nat, size: u16) {
    Splits(available, size) ==> available >= size + HEADER_SIZE
  }

  function Allocated(bs: seq<Block>, i: nat, size: u16, owner: u8): seq<Block>
    requires i < |bs| && Fits(bs[i], size) && SplitSafe(bs[i].size, size)
  {
    if Splits(bs[i].size, size)
    then bs[..i] + [Block(size, false, owner), Block(bs[i].size - size - HEADER_SIZE, true, 0)] + bs[i + 1..]
    else bs[i := Block(bs[i].size, false, owner)]
  }

  /** The request is one the split arithmetic handles. */
  predicate MallocSafe(bs: seq<Block>, size: u16) {
    FirstFit(bs, size) < |bs| ==> SplitSafe(bs[FirstFit(bs, size)].size, size)
  }

  function Malloc(bs: seq<Block>, size: u16, owner: u8): seq<Block>
    requires MallocSafe(bs, size)
  {
    if size == 0 || FirstFit(bs, size) == |bs| then bs else Allocated(bs, FirstFit(bs, size), size, owner)
  }

  /** A request is safe whatever block serves it iff the 16-bit sum does not wrap: iff it is below 65525 bytes. */
  lemma AlwaysSafeIff(size: u16)
    ensures (forall available: nat | available >= size :: SplitSafe(available, size))
       <==> size + HEADER_SIZE + 4 < 0x1_0000
  {
    if size + HEADER_SIZE + 4 >= 0x1_0000 {
      assert !SplitSafe(size as nat, size);
    }
  }

  ghost predicate NoneEmpty(bs: seq<Block>) {
    forall i | 0 <= i < |bs| :: bs[i].size >= 1
  }

  /** A safe request leaves no empty block iff it is not one whose split leaves room for a header and nothing else,
      which takes a wrapped sum. */
  lemma MallocNoneEmptyIff(bs: seq<Block>, size: u16, owner: u8)
    requires NoneEmpty(bs) && MallocSafe(bs, size) && size > 0 && FirstFit(bs, size) < |bs|
    ensures var available := bs[FirstFit(bs, size)].size;
      && (NoneEmpty(Malloc(bs, size, owner)) <==> !(Splits(available, size) && available == size + HEADER_SIZE))
      && (size + HEADER_SIZE + 4 < 0x1_0000 ==> NoneEmpty(Malloc(bs, size, owner)))
  {
    var i, r := FirstFit(bs, size), Malloc(bs, size, owner);
    if Splits(bs[i].size, size) {
      assert r[i + 1].size == bs[i].size - size - HEADER_SIZE;
    }
  }

  lemma AllocatedOk(bs: seq<Block>, i: nat, size: u16, owner: u8)
    requires WellFormed(bs) && i < |bs| && size > 0 && Fits(bs[i], size) && SplitSafe(bs[i].size, size)
    ensures WellFormed(Allocated(bs, i, size, owner))
  {
    var r := Allocated(bs, i, size, owner);
    SpanSplit(bs, i);
    if Splits(bs[i].size, size) {
      var two := [Block(size, false, owner), Block(bs[i].size - size - HEADER_SIZE, true, 0)];
      SpanConcat(bs[..i] + two, bs[i + 1..]);
      SpanConcat(bs[..i], two);
      SpanConcat([two[0]], [two[1]]);
      SpanOne(two[0]);
      SpanOne(two[1]);
      assert two == [two[0]] + [two[1]];
    } else {
      SpanSplit(r, i);
    }
  }

  lemma MallocOk(bs: seq<Block>, size: u16, owner: u8)
    requires WellFormed(bs) && MallocSafe(bs, size)
    ensures WellFormed(Malloc(bs, size, owner))
  {
    if size > 0 && FirstFit(bs, size) < |bs| { AllocatedOk(bs, FirstFit(bs, size), size, owner); }
  }

  /** The block handed out is at least as large as asked, by less than a header and five bytes. */
  lemma MallocBlockSize(bs: seq<Block>, size: u16, owner: u8)
    requires MallocSafe(bs, size) && size > 0 && FirstFit(bs, size) < |bs|
    ensures var i := FirstFit(bs, size);
      var b := Malloc(bs, size, owner)[i];
      !b.free && b.owner == owner && size <= b.size <= size + HEADER_SIZE + 4
  {
  }

  /** When a request splits its block: below 65525 bytes, iff it has more than eleven bytes to spare, and then the
      remainder has at least five; from there on, whenever the split is safe, always. Otherwise the block is handed out
      whole. */
  lemma SplitThreshold(bs: seq<Block>, size: u16, owner: u8)
    requires MallocSafe(bs, size) && size > 0 && FirstFit(bs, size) < |bs|
    ensures var i, r := FirstFit(bs, size), Malloc(bs, size, owner);
      var spare := bs[i].size - size;
      && (size + HEADER_SIZE + 4 < 0x1_0000 ==> (|r| == |bs| + 1 <==> spare > HEADER_SIZE + 4))
      && (size + HEADER_SIZE + 4 < 0x1_0000 ==> (r[i].size == size <==> spare == 0 || spare > HEADER_SIZE + 4))
      && (size + HEADER_SIZE + 4 < 0x1_0000 && |r| == |bs| + 1 ==> r[i + 1].size >= 5)
      && (size + HEADER_SIZE + 4 >= 0x1_0000 ==> |r| == |bs| + 1 && r[i].size == size)
    ensures var i, r := FirstFit(bs, size), Malloc(bs, size, owner);
      && (|r| == |bs| || |r| == |bs| + 1)
      && (|r| == |bs| ==> r == bs[i := Block(bs[i].size, false, owner)])
      && (|r| == |bs| + 1 ==> r[i + 1].free && r[i + 1].size == bs[i].size - size - HEADER_SIZE
                              && r[..i] == bs[..i] && r[i + 2..] == bs[i + 1..])
  {
    var i, r := FirstFit(bs, size), Malloc(bs, size, owner);
    if Splits(bs[i].size, size) {
      assert r[i + 2..] == bs[i + 1..];
    }
  }

  // ---------- free ----------

  function Released(bs: seq<Block>, i: nat): seq<Block>
    requires i < |bs|
  {
    if bs[i].free then bs else bs[i := Block(bs[i].size, true, 0)]
  }

  /** By the address of its data; the first block is refused, its address fails the code's test. */
  function Freed(bs: seq<Block>, i: nat): seq<Block>
    requires i < |bs|
  {
    if i == 0 then bs else Released(bs, i)
  }

  lemma ReleasedOk(bs: seq<Block>, i: nat)
    requires WellFormed(bs) && i < |bs|
    ensures WellFormed(Released(bs, i))
  {
    SameSizesSameSpan(Released(bs, i), bs);
  }

  lemma {:induction false} SameSizesSameSpan(a: seq<Block>, b: seq<Block>)
    requires |a| == |b| && forall i | 0 <= i < |a| :: a[i].size == b[i].size
    ensures Span(a) == Span(b)
  {
    if a != [] { SameSizesSameSpan(a[..|a| - 1], b[..|b| - 1]); }
  }

  // ---------- defrag ----------

  function Merge(a: Block, b: Block): Block { a.(size := a.size + HEADER_SIZE + b.size) }

  /** One pass from the left: a free block swallows free successors until the next one is in use. */
  function Defrag(bs: seq<Block>): seq<Block>
    decreases |bs|
  {
    if |bs| < 2 then bs
    else if bs[0].free && bs[1].free then Defrag([Merge(bs[0], bs[1])] + bs[2..])
    else [bs[0]] + Defrag(bs[1..])
  }

  ghost predicate NoAdjacentFree(bs: seq<Block>) {
    forall i | 0 <= i < |bs| - 1 :: !(bs[i].free && bs[i + 1].free)
  }

  /** The first block of the result starts where it did and is free iff it was. */
  lemma {:induction false} DefragHead(bs: seq<Block>)
    requires bs != []
    ensures Defrag(bs) != [] && Defrag(bs)[0].free == bs[0].free && Defrag(bs)[0].owner == bs[0].owner
    decreases |bs|
  {
    if |bs| >= 2 && bs[0].free && bs[1].free { DefragHead([Merge(bs[0], bs[1])] + bs[2..]); }
  }

  lemma {:induction false} DefragLeavesNoAdjacentFree(bs: seq<Block>)
    ensures NoAdjacentFree(Defrag(bs))
    decreases |bs|
  {
    if |bs| >= 2 {
      if bs[0].free && bs[1].free {
        DefragLeavesNoAdjacentFree([Merge(bs[0], bs[1])] + bs[2..]);
      } else {
        DefragLeavesNoAdjacentFree(bs[1..]);
        DefragHead(bs[1..]);
      }
    }
  }

  lemma {:induction false} DefragFixpoint(bs: seq<Block>)
    ensures Defrag(bs) == bs <==> NoAdjacentFree(bs)
    decreases |bs|
  {
    DefragLeavesNoAdjacentFree(bs);
    if |bs| >= 2 && NoAdjacentFree(bs) {
      DefragFixpoint(bs[1..]);
      assert NoAdjacentFree(bs[1..]);
      assert bs == [bs[0]] + bs[1..];
    }
  }

  lemma DefragIdempotent(bs: seq<Block>)
    ensures Defrag(Defrag(bs)) == Defrag(bs)
  {
    DefragLeavesNoAdjacentFree(bs);
    DefragFixpoint(Defrag(bs));
  }

  /** A left part with nothing to merge, inside or at its edge, is passed over. */
  lemma {:induction false} DefragPasses(a: seq<Block>, b: seq<Block>)
    requires NoAdjacentFree(a) && (a == [] || b == [] || !(a[|a| - 1].free && b[0].free))
    ensures Defrag(a + b) == a + Defrag(b)
    decreases |a|
  {
    if a == [] {
      assert a + b == b;
    } else {
      assert (a + b)[1..] == a[1..] + b;
      assert NoAdjacentFree(a[1..]);
      DefragPasses(a[1..], b);
      if |a + b| >= 2 {
        assert (a + b)[1] == if |a| > 1 then a[1] else b[0];
        assert a + Defrag(b) == [a[0]] + (a[1..] + Defrag(b));
      } else {
        assert a + b == a && b == [];
      }
    }
  }

  /** Allocating, freeing and defragmenting restores the very same blocks iff the block is not the first of the heap. */
  lemma MallocFreeDefragRoundTrip(bs: seq<Block>, size: u16, owner: u8)
    requires WellFormed(bs) && NoAdjacentFree(bs) && MallocSafe(bs, size)
    requires size > 0 && FirstFit(bs, size) < |bs|
    ensures Defrag(Freed(Malloc(bs, size, owner), FirstFit(bs, size))) == bs <==> FirstFit(bs, size) > 0
  {
    hide Defrag, NoAdjacentFree, Freed, Malloc, Span;
    MallocFreed(bs, size, owner);
    var i := FirstFit(bs, size);
    var f := Freed(Malloc(bs, size, owner), i);
    if i == 0 {
      DefragHead(f);
    } else if Splits(bs[i].size, size) {
      SplitRejoins(bs, i, size);
    } else {
      DefragFixpoint(bs);
    }
  }

  /** The blocks after a request and the release of what it got. */
  lemma MallocFreed(bs: seq<Block>, size: u16, owner: u8)
    requires WellFormed(bs) && MallocSafe(bs, size) && size > 0 && FirstFit(bs, size) < |bs|
    ensures FirstFit(bs, size) < |Malloc(bs, size, owner)|
    ensures var i := FirstFit(bs, size);
      var f := Freed(Malloc(bs, size, owner), i);
      && bs[i].free && bs[i].owner == 0
      && (i == 0 ==> f != [] && !f[0].free)
      && (i > 0 && !Splits(bs[i].size, size) ==> f == bs)
      && (i > 0 && Splits(bs[i].size, size) ==>
            f == bs[..i] + ([Block(size, true, 0), Block(bs[i].size - size - HEADER_SIZE, true, 0)] + bs[i + 1..]))
  {
    hide Span;
    assert BlockOk(bs[FirstFit(bs, size)]);
  }

  /** Two free pieces of a block whose neighbours are in use coalesce back into it. */
  lemma SplitRejoins(bs: seq<Block>, i: nat, size: u16)
    requires NoAdjacentFree(bs) && 0 < i < |bs| && bs[i].free && bs[i].owner == 0 && bs[i].size >= size + HEADER_SIZE
    ensures var two := [Block(size, true, 0), Block(bs[i].size - size - HEADER_SIZE, true, 0)];
      Defrag(bs[..i] + (two + bs[i + 1..])) == bs
  {
    var one, two := Block(size, true, 0), Block(bs[i].size - size - HEADER_SIZE, true, 0);
    var tail := [one, two] + bs[i + 1..];
    assert tail[2..] == bs[i + 1..] && Merge(one, two) == bs[i];
    assert Defrag(tail) == Defrag([bs[i]] + bs[i + 1..]);
    hide Defrag;
    assert !bs[i - 1].free;
    DefragPasses(bs[..i], tail);
    assert [bs[i]] + bs[i + 1..] == bs[i..];
    SuffixFixed(bs, i);
    assert bs == bs[..i] + bs[i..];
  }

  lemma SuffixFixed(bs: seq<Block>, i: nat)
    requires NoAdjacentFree(bs) && i <= |bs|
    ensures Defrag(bs[i..]) == bs[i..]
  {
    forall j | 0 <= j < |bs[i..]| - 1
      ensures !(bs[i..][j].free && bs[i..][j + 1].free)
    {
      assert !(bs[i + j].free && bs[i + j + 1].free);
    }
    DefragFixpoint(bs[i..]);
  }

  // ---------- Accounting ----------

  function FreeBytes(bs: seq<Block>): nat {
    if bs == [] then 0 else (if bs[0].free then bs[0].size else 0) + FreeBytes(bs[1..])
  }

  function LiveBytes(bs: seq<Block>): nat {
    if bs == [] then 0 else (if bs[0].free then 0 else bs[0].size) + LiveBytes(bs[1..])
  }

  lemma SpanFront(bs: seq<Block>)
    requires bs != []
    ensures Span(bs) == HEADER_SIZE + bs[0].size + Span(bs[1..])
  {
    SpanSplit(bs, 0);
    assert bs[..0] == [];
  }

  /** Free bytes, live bytes and one header per block always add up to the whole. */
  lemma {:induction false} Conservation(bs: seq<Block>)
    ensures FreeBytes(bs) + LiveBytes(bs) + HEADER_SIZE * |bs| == Span(bs)
  {
    if bs != [] {
      Conservation(bs[1..]);
      SpanFront(bs);
    }
  }

  /** The bytes in use that `getUsed` reports: live data plus every header but one. */
  lemma UsedBytes(bs: seq<Block>)
    requires WellFormed(bs)
    ensures HEAP_TOTAL_SIZE - HEADER_SIZE - FreeBytes(bs) == LiveBytes(bs) + HEADER_SIZE * (|bs| - 1) >= 0
  {
    Conservation(bs);
  }

  /** The blocks in use: where their data starts, how long it is and whose it is. */
  function Live(bs: seq<Block>, base: nat): seq<(nat, nat, u8)> {
    if bs == [] then []
    else
      (if bs[0].free then [] else [(base + HEADER_SIZE, bs[0].size, bs[0].owner)])
      + Live(bs[1..], base + HEADER_SIZE + bs[0].size)
  }

  lemma {:induction false} DefragSpan(bs: seq<Block>)
    ensures Span(Defrag(bs)) == Span(bs) && |Defrag(bs)| <= |bs|
    decreases |bs|
  {
    if |bs| >= 2 {
      SpanFront(bs);
      if bs[0].free && bs[1].free {
        var merged := [Merge(bs[0], bs[1])] + bs[2..];
        DefragSpan(merged);
        assert merged[1..] == bs[2..] && bs[1..][1..] == bs[2..];
        SpanFront(bs[1..]);
        SpanFront(merged);
      } else {
        DefragSpan(bs[1..]);
        var r := [bs[0]] + Defrag(bs[1..]);
        assert r[1..] == Defrag(bs[1..]);
        SpanFront(r);
      }
    }
  }

  lemma {:induction false} DefragLive(bs: seq<Block>, base: nat)
    ensures Live(Defrag(bs), base) == Live(bs, base)
    decreases |bs|
  {
    if |bs| >= 2 {
      if bs[0].free && bs[1].free {
        var merged := [Merge(bs[0], bs[1])] + bs[2..];
        DefragLive(merged, base);
        assert merged[1..] == bs[2..] && bs[1..][1..] == bs[2..];
        assert Live(bs[1..], base + HEADER_SIZE + bs[0].size)
            == Live(bs[2..], base + HEADER_SIZE + merged[0].size);
      } else {
        DefragLive(bs[1..], base + HEADER_SIZE + bs[0].size);
        assert ([bs[0]] + Defrag(bs[1..]))[1..] == Defrag(bs[1..]);
      }
    }
  }

  lemma FreeBytesFront(b: Block, bs: seq<Block>)
    ensures FreeBytes([b] + bs) == (if b.free then b.size else 0) + FreeBytes(bs)
  {
    assert ([b] + bs)[1..] == bs;
  }

  lemma {:induction false} DefragFreeBytes(bs: seq<Block>)
    ensures FreeBytes(Defrag(bs)) == FreeBytes(bs) + HEADER_SIZE * (|bs| - |Defrag(bs)|)
    decreases |bs|
  {
    if |bs| >= 2 {
      if bs[0].free && bs[1].free {
        DefragFreeBytes([Merge(bs[0], bs[1])] + bs[2..]);
        FreeBytesFront(Merge(bs[0], bs[1]), bs[2..]);
        assert bs[1..][1..] == bs[2..];
      } else {
        DefragFreeBytes(bs[1..]);
        FreeBytesFront(bs[0], Defrag(bs[1..]));
      }
    }
  }

  /** A pass moves no block in use, covers the same bytes, and turns one header into free space per merge. */
  lemma DefragKeeps(bs: seq<Block>, base: nat)
    ensures Live(Defrag(bs), base) == Live(bs, base)
    ensures Span(Defrag(bs)) == Span(bs) && |Defrag(bs)| <= |bs|
    ensures FreeBytes(Defrag(bs)) == FreeBytes(bs) + HEADER_SIZE * (|bs| - |Defrag(bs)|)
  {
    DefragSpan(bs);
    DefragLive(bs, base);
    DefragFreeBytes(bs);
  }

  lemma {:induction false} DefragBlocksOk(bs: seq<Block>)
    requires forall i | 0 <= i < |bs| :: BlockOk(bs[i])
    ensures forall i | 0 <= i < |Defrag(bs)| :: BlockOk(Defrag(bs)[i])
    decreases |bs|
  {
    if |bs| >= 2 {
      if bs[0].free && bs[1].free {
        DefragBlocksOk([Merge(bs[0], bs[1])] + bs[2..]);
      } else {
        DefragBlocksOk(bs[1..]);
      }
    }
  }

  lemma DefragOk(bs: seq<Block>)
    requires WellFormed(bs)
    ensures WellFormed(Defrag(bs))
  {
    DefragKeeps(bs, 0);
    DefragBlocksOk(bs);
  }
}
