/** The first-fit heap as the code runs it: loops over headers in the external memory, rewriting them in place. */
module ExtSRAMHeap {
  import opened Words
  import opened Sram
  import opened HeapBlocks
  import opened HeapHeader
  import opened HeapBytes

  class ExtSRAM {
    const sram: array<u8>  // the external chip, used by nobody else
    ghost var blocks: seq<Block>

    ghost predicate Sized() { sram.Length == SRAM_SIZE }

    ghost function Mem(): Memory
      reads sram
      requires Sized()
    {
      sram[..]
    }

    ghost predicate Valid()
      reads this, sram
    {
      Sized() && Tiles(Mem(), blocks)
    }

    constructor (chip: array<u8>)
      requires chip.Length == SRAM_SIZE
      ensures Sized() && sram == chip
    {
      sram := chip;
      blocks := [];
    }

    // ---------- Header access ----------

    method ReadHeader(a: u32) returns (h: Header)
      requires Sized()
      ensures h == Decode(BytesAt(Mem(), a, HEADER_SIZE))
      ensures a + HEADER_SIZE <= SRAM_SIZE ==> h == Decode(Mem()[a..a + HEADER_SIZE])
    {
      InsideBlock(Mem(), a, []);
      var bytes: seq<u8> := [];
      for i := 0 to HEADER_SIZE
        invariant |bytes| == i && forall j | 0 <= j < i :: bytes[j] == BytesAt(Mem(), a, HEADER_SIZE)[j]
      {
        bytes := bytes + [sram[Cell(a, i)]];
      }
      assert bytes == BytesAt(Mem(), a, HEADER_SIZE);
      h := Decode(bytes);
    }

    method WriteHeader(a: u32, h: Header)
      requires Sized()
      modifies sram
      ensures Sized() && Mem() == Overwrite(old(Mem()), a, Encode(h))
      ensures a + HEADER_SIZE <= SRAM_SIZE ==> Mem() == Patch(old(Mem()), a, Encode(h))
    {
      var bytes := Encode(h);
      InsideBlock(Mem(), a, bytes);
      hide Encode;
      for i := 0 to HEADER_SIZE
        invariant forall x | 0 <= x < SRAM_SIZE :: sram[x] == if Gap(a, x) < i then bytes[Gap(a, x)] else old(sram[x])
      {
        sram[Cell(a, i)] := bytes[i];
        CellGap(a, i);
        forall x | 0 <= x < SRAM_SIZE && Gap(a, x) == i
          ensures x == Cell(a, i)
        {
          CellGap(a, x);
        }
      }
    }

    /** The header at block i of a well-formed heap. */
    method ReadBlock(ghost i: nat, a: nat) returns (h: Header)
      requires Valid() && i < |blocks| && a == Addr(blocks, i)
      ensures blocks[i].size < 0x1_0000_0000 && h == Stored(blocks[i])
      ensures a + HEADER_SIZE + blocks[i].size <= HEAP_TOTAL_SIZE
    {
      assert HeaderAt(Mem(), a, blocks[i]);
      BlockInside(blocks, i);
      h := ReadHeader(a);
      DecodeEncode(Stored(blocks[i]));
    }

    // ---------- Operations ----------

    method Init()
      requires Sized()
      modifies this, sram
      ensures Valid() && blocks == INITIAL_BLOCKS
    {
      WriteHeader(0, Header(HEAP_TOTAL_SIZE - HEADER_SIZE, 1, HEAP_MAGIC, 0));
      blocks := INITIAL_BLOCKS;
      InitialTiles(Mem());
    }

    /** First fit with an optional split. The heap stays well-formed for every request the split arithmetic handles;
        the bytes written are given for every request. */
    method Malloc(size: u16, owner: u8) returns (addr: nat)
      requires Valid()
      modifies this, sram
      ensures Sized()
      ensures var i := FirstFit(old(blocks), size);
        if size == 0 || i == |old(blocks)| then addr == 0 && Mem() == old(Mem()) && blocks == old(blocks)
        else
          && addr == Addr(old(blocks), i) + HEADER_SIZE
          && addr + old(blocks)[i].size <= HEAP_TOTAL_SIZE
          && Mem() == MallocWrites(old(Mem()), Addr(old(blocks), i), old(blocks)[i].size, size, owner)
      ensures MallocSafe(old(blocks), size) ==> Valid() && blocks == HeapBlocks.Malloc(old(blocks), size, owner)
      ensures MallocSafe(old(blocks), size) ==> forall x: nat | LiveByte(old(blocks), x) && x < SRAM_SIZE ::
        sram[x] == old(sram[x]) && LiveByte(blocks, x)
    {
      hide Tiles, LiveByte, Addr, MallocWrites, HeapBlocks.FirstFit;
      if size == 0 {
        return 0;
      }
      var curr := 0;
      ghost var i := 0;
      AddrEnds(blocks);
      BlockInsideMem(Mem(), blocks, 0);
      while curr < HEAP_TOTAL_SIZE
        invariant i <= |blocks| && curr == Addr(blocks, i) && curr <= HEAP_TOTAL_SIZE
        invariant curr < HEAP_TOTAL_SIZE <==> i < |blocks|
        invariant forall j | 0 <= j < i :: !HeapBlocks.Fits(blocks[j], size)
        invariant Valid() && blocks == old(blocks) && Mem() == old(Mem())
        decreases |blocks| - i
      {
        var hdr := ReadBlock(i, curr);
        if hdr.magic != HEAP_MAGIC {
          break;  // corruption: the code returns 0 at once, as here
        }
        BlockInsideMem(Mem(), blocks, i);
        if hdr.free != 0 && hdr.size >= size {
          assert FirstFit(blocks, size) == i;
          Serve(i, curr, hdr, size, owner);
          return curr + HEADER_SIZE;
        }
        AddrNext(blocks, i);
        curr := curr + HEADER_SIZE + hdr.size;
        i := i + 1;
        BlockInsideMem(Mem(), blocks, i);
      }
      return 0;
    }

    /** The part of `malloc` that splits and hands out the block found. */
    method Serve(ghost i: nat, curr: nat, hdr: Header, size: u16, owner: u8)
      requires Valid() && i < |blocks| && curr == Addr(blocks, i) && size > 0 && HeapBlocks.Fits(blocks[i], size)
      requires curr + HEADER_SIZE + blocks[i].size <= HEAP_TOTAL_SIZE && hdr == Stored(blocks[i])
      requires i == FirstFit(blocks, size)
      modifies this, sram
      ensures Mem() == MallocWrites(old(Mem()), curr, old(blocks)[i].size, size, owner)
      ensures MallocSafe(old(blocks), size) ==> Valid() && blocks == HeapBlocks.Malloc(old(blocks), size, owner)
      ensures MallocSafe(old(blocks), size) ==> forall x: nat | LiveByte(old(blocks), x) && x < SRAM_SIZE ::
        sram[x] == old(sram[x]) && LiveByte(blocks, x)
    {
      hide Tiles, Encode, LiveByte, Addr, Patch, Allocated, HeapBlocks.FirstFit, HeapBlocks.Malloc;
      ServeOutcome(Mem(), blocks, i, size, owner);
      if hdr.size > Wrap16(size + HEADER_SIZE + 4) {
        WriteHeader(curr + HEADER_SIZE + size, Header(Wrap32(hdr.size - size - HEADER_SIZE), 1, HEAP_MAGIC, 0));
        WriteHeader(curr, Header(size, 0, hdr.magic, owner));
      } else {
        WriteHeader(curr, Header(hdr.size, 0, hdr.magic, owner));
      }
      if MallocSafe(blocks, size) {
        blocks := HeapBlocks.Malloc(blocks, size, owner);
      }
    }

    /** Marks the block whose header lies in front of the address free, where addresses beyond the chip wrap around.
        Addresses up to that of the first block's data are refused; any address is judged by the bytes in front. */
    method Free(dataAddr: u32)
      requires Valid()
      modifies this, sram
      ensures Sized() && Mem() == FreeWrites(old(Mem()), dataAddr)
      ensures blocks == FreedAt(old(blocks), dataAddr)
      ensures IsBlock(old(blocks), dataAddr) || dataAddr <= HEADER_SIZE ==> Valid()
      ensures IsBlock(old(blocks), dataAddr) || dataAddr <= HEADER_SIZE ==>
        forall x: nat | LiveByte(old(blocks), x) && x < SRAM_SIZE :: sram[x] == old(sram[x])
    {
      hide Tiles, LiveByte, FreedAt, IsBlock, Encode, Decode;
      FreeTiles(Mem(), blocks, dataAddr);
      ghost var after := FreedAt(blocks, dataAddr);
      if dataAddr == 0 || dataAddr <= HEADER_SIZE {
        blocks := after;
        return;
      }
      var hdr := ReadHeader(dataAddr - HEADER_SIZE);
      if hdr.magic == HEAP_MAGIC && hdr.free == 0 {
        WriteHeader(dataAddr - HEADER_SIZE, hdr.(free := 1, owner := 0));
      }
      blocks := after;
    }

    /** One coalescing pass, in place. */
    method Defrag()
      requires Valid()
      modifies this, sram
      ensures Valid() && blocks == HeapBlocks.Defrag(old(blocks))
      ensures forall x: nat | LiveByte(old(blocks), x) && x < SRAM_SIZE ::
        sram[x] == old(sram[x]) && LiveByte(blocks, x)
    {
      hide Tiles, LiveByte, Addr, HeapBlocks.Defrag, Encode;
      var curr := 0;
      ghost var i := 0;
      AddrEnds(blocks);
      BlockInsideMem(Mem(), blocks, 0);
      assert blocks[0..] == blocks && blocks[..0] == [];
      while curr < HEAP_TOTAL_SIZE
        invariant Valid() && i <= |blocks| && curr == Addr(blocks, i) && curr <= HEAP_TOTAL_SIZE
        invariant curr < HEAP_TOTAL_SIZE <==> i < |blocks|
        invariant HeapBlocks.Defrag(old(blocks)) == blocks[..i] + HeapBlocks.Defrag(blocks[i..])
        invariant forall x: nat | LiveByte(old(blocks), x) && x < SRAM_SIZE ::
          sram[x] == old(sram[x]) && LiveByte(blocks, x)
        decreases |blocks| - i
      {
        var hdr := ReadBlock(i, curr);
        if hdr.magic != HEAP_MAGIC {
          break;
        }
        AddrNext(blocks, i);
        BlockInsideMem(Mem(), blocks, i + 1);
        if hdr.free != 0 {
          var next := curr + HEADER_SIZE + hdr.size;
          if next < HEAP_TOTAL_SIZE {
            var nxt := ReadBlock(i + 1, next);
            if nxt.magic == HEAP_MAGIC && nxt.free != 0 {
              MergeStep(i, curr, hdr, nxt);
              continue;
            }
          }
        }
        DefragAdvance(blocks, i);
        curr := curr + HEADER_SIZE + hdr.size;
        i := i + 1;
      }
      DefragDone(blocks, i);
    }

    /** One merge: the free block at i swallows its free successor. */
    method MergeStep(ghost i: nat, curr: nat, hdr: Header, nxt: Header)
      requires Valid() && i + 1 < |blocks| && curr == Addr(blocks, i) && blocks[i].free && blocks[i + 1].free
      requires curr + HEADER_SIZE + blocks[i].size + HEADER_SIZE + blocks[i + 1].size <= HEAP_TOTAL_SIZE
      requires hdr == Stored(blocks[i]) && nxt == Stored(blocks[i + 1])
      modifies this, sram
      ensures Valid() && blocks == Merged(old(blocks), i)
      ensures |blocks| == |old(blocks)| - 1 && curr == Addr(blocks, i)
      ensures blocks[..i] + HeapBlocks.Defrag(blocks[i..]) == old(blocks)[..i] + HeapBlocks.Defrag(old(blocks)[i..])
      ensures forall x: nat | LiveByte(old(blocks), x) && x < SRAM_SIZE ::
        sram[x] == old(sram[x]) && LiveByte(blocks, x)
    {
      hide Tiles, LiveByte, Addr, HeapBlocks.Defrag, Merged, Encode;
      MergeOutcome(Mem(), blocks, i);
      WriteHeader(curr, hdr.(size := hdr.size + HEADER_SIZE + nxt.size));
      blocks := Merged(blocks, i);
    }

    method GetFree() returns (total: nat)
      requires Valid()
      ensures total == FreeBytes(blocks)
    {
      total := 0;
      var curr := 0;
      ghost var i := 0;
      AddrEnds(blocks);
      BlockInside(blocks, 0);
      assert blocks[0..] == blocks;
      while curr < HEAP_TOTAL_SIZE
        invariant i <= |blocks| && curr == Addr(blocks, i) && curr <= HEAP_TOTAL_SIZE
        invariant curr < HEAP_TOTAL_SIZE <==> i < |blocks|
        invariant total + FreeBytes(blocks[i..]) == FreeBytes(blocks)
        decreases |blocks| - i
      {
        var hdr := ReadBlock(i, curr);
        if hdr.magic != HEAP_MAGIC {
          break;
        }
        if hdr.free != 0 {
          total := total + hdr.size;
        }
        assert blocks[i..][1..] == blocks[i + 1..];
        AddrNext(blocks, i);
        curr := curr + HEADER_SIZE + hdr.size;
        i := i + 1;
        BlockInside(blocks, i);
      }
    }

    /** Bytes in use: live data plus every header but one. */
    method GetUsed() returns (used: nat)
      requires Valid()
      ensures used == LiveBytes(blocks) + HEADER_SIZE * (|blocks| - 1)
    {
      UsedBytes(blocks);
      var free := GetFree();
      used := HEAP_TOTAL_SIZE - HEADER_SIZE - free;
    }

    /** A user's write inside a live block. */
    method WriteData(a: nat, b: u8)
      requires Valid() && LiveByte(blocks, a) && a < SRAM_SIZE
      modifies sram
      ensures Valid() && Mem() == old(Mem())[a := b]
    {
      DataWriteTiles(Mem(), blocks, a, b);
      sram[a] := b;
      assert Mem() == old(Mem())[a := b];
    }

    // ---------- Runs ----------

    /** One call, or one write of a user. */
    method Call(op: HeapOp) returns (addr: nat)
      requires Valid() && Allowed(blocks, op)
      modifies this, sram
      ensures Valid() && blocks == Step(old(blocks), op) && addr == Answer(old(blocks), op)
      ensures Preserves(op, old(blocks), old(Mem()), blocks, Mem())
    {
      hide Tiles, FreedAt, IsBlock, HeapBlocks.Malloc, HeapBlocks.Defrag, LiveByte, Addr, MallocWrites, FreeWrites;
      addr := 0;
      match op
      case Reset => Init();
      case Request(size, owner) => addr := Malloc(size, owner);
      case Release(a) => Free(a);
      case Compact => Defrag();
      case Store(c, b) => WriteData(c, b);
    }

    /** Any admissible run: the memory tiles into the blocks the model says, every request is answered as the model
        says, and every live byte holds what was last stored there. */
    method Calls(ops: seq<HeapOp>) returns (addrs: seq<nat>)
      requires Valid() && Admissible(blocks, ops)
      modifies this, sram
      ensures Valid() && blocks == Run(old(blocks), ops) && addrs == Answers(old(blocks), ops)
      ensures AllHeld(old(blocks), old(Mem()), ops, blocks, Mem())
    {
      ghost var start, mem := blocks, Mem();
      hide Tiles, Run, Admissible, Answers, AllHeld, Step, Answer, Preserves, Allowed;
      RunNone(start);
      HeldAtStart(start, mem);
      assert ops[..0] == [];
      addrs := [];
      for k := 0 to |ops|
        invariant Valid() && Admissible(start, ops[..k]) && blocks == Run(start, ops[..k])
        invariant addrs == Answers(start, ops[..k])
        invariant AllHeld(start, mem, ops[..k], blocks, Mem())
      {
        AdmissibleAt(start, ops, k);
        ghost var before, was := blocks, Mem();
        var addr := Call(ops[k]);
        HeldAfter(start, mem, ops, k, before, was, blocks, Mem());
        addrs := addrs + [addr];
      }
      assert ops[..|ops|] == ops;
    }
  }

  // ---------- Init, free, defrag on values ----------

  lemma InitialTiles(m: Memory)
    requires m[0..HEADER_SIZE] == Encode(Header(HEAP_TOTAL_SIZE - HEADER_SIZE, 1, HEAP_MAGIC, 0))
    ensures Tiles(m, INITIAL_BLOCKS)
  {
    SpanOne(INITIAL_BLOCKS[0]);
    AddrEnds(INITIAL_BLOCKS);
  }

  /** A block of bytes that does not wrap around the end of the chip. */
  lemma InsideBlock(m: Memory, a: u32, d: seq<u8>)
    ensures a + HEADER_SIZE <= SRAM_SIZE ==> BytesAt(m, a, HEADER_SIZE) == m[a..a + HEADER_SIZE]
    ensures a + |d| <= SRAM_SIZE ==> Overwrite(m, a, d) == Patch(m, a, d)
  {
    if a + |d| <= SRAM_SIZE {
      forall i: nat | i < SRAM_SIZE
        ensures Overwrite(m, a, d)[i] == Patch(m, a, d)[i]
      {
        assert Gap(a, i) == if i >= a then i - a else i - a + SRAM_SIZE;
      }
    }
  }

  /** What `free` writes: only a header-like pattern marked as in use is changed. */
  function FreeWrites(m: Memory, dataAddr: u32): Memory {
    if dataAddr <= HEADER_SIZE then m
    else
      var a := dataAddr - HEADER_SIZE;
      var h := Decode(BytesAt(m, a, HEADER_SIZE));
      if h.magic == HEAP_MAGIC && h.free == 0 then Overwrite(m, a, Encode(h.(free := 1, owner := 0))) else m
  }

  /** The address is one the code takes and the block is the one whose header lies in front of it. */
  predicate IsBlockAt(bs: seq<Block>, i: nat, dataAddr: u32) {
    i < |bs| && dataAddr > HEADER_SIZE && Cell(dataAddr - HEADER_SIZE, 0) == Addr(bs, i)
  }

  /** The address is that of some block's data, in use or free. */
  ghost predicate IsBlock(bs: seq<Block>, dataAddr: u32) { exists i: nat :: IsBlockAt(bs, i, dataAddr) }

  ghost function FreedAt(bs: seq<Block>, dataAddr: u32): seq<Block> {
    if IsBlock(bs, dataAddr) then
      var i: nat :| IsBlockAt(bs, i, dataAddr); Released(bs, i)
    else bs
  }

  lemma BlockAtUnique(bs: seq<Block>, i: nat, j: nat, dataAddr: u32)
    requires IsBlockAt(bs, i, dataAddr) && IsBlockAt(bs, j, dataAddr)
    ensures i == j
  {
    if i < j { AddrOrder(bs, i, j); }
    if j < i { AddrOrder(bs, j, i); }
  }

  lemma FreedAtBlock(bs: seq<Block>, i: nat, dataAddr: u32)
    requires IsBlockAt(bs, i, dataAddr)
    ensures FreedAt(bs, dataAddr) == Released(bs, i)
  {
    var j: nat :| IsBlockAt(bs, j, dataAddr) && FreedAt(bs, dataAddr) == Released(bs, j);
    BlockAtUnique(bs, i, j, dataAddr);
  }

  /** By the address `malloc` returned a block is freed unless it is the first of the heap. */
  lemma FreedByItsAddress(bs: seq<Block>, i: nat, dataAddr: u32)
    requires i < |bs| && dataAddr == Addr(bs, i) + HEADER_SIZE < SRAM_SIZE
    ensures FreedAt(bs, dataAddr) == Freed(bs, i)
    ensures IsBlock(bs, dataAddr) <==> i > 0
  {
    AddrEnds(bs);
    if i > 0 {
      AddrOrder(bs, 0, i);
      assert IsBlockAt(bs, i, dataAddr);
      FreedAtBlock(bs, i, dataAddr);
    }
  }

  /** The refusal of the first block is by its address alone: one chip size further on, the same block is freed. */
  lemma FirstBlockFreedByWrappedAddress(bs: seq<Block>)
    requires bs != []
    ensures FreedAt(bs, HEADER_SIZE) == bs && FreedAt(bs, SRAM_SIZE + HEADER_SIZE) == Released(bs, 0)
  {
    AddrEnds(bs);
    assert IsBlockAt(bs, 0, SRAM_SIZE + HEADER_SIZE);
    FreedAtBlock(bs, 0, SRAM_SIZE + HEADER_SIZE);
  }

  /** Freeing a block's address marks exactly that block; live bytes stay. */
  lemma FreeTiles(m: Memory, bs: seq<Block>, dataAddr: u32)
    requires Tiles(m, bs)
    ensures IsBlock(bs, dataAddr) || dataAddr <= HEADER_SIZE ==> Tiles(FreeWrites(m, dataAddr), FreedAt(bs, dataAddr))
    ensures IsBlock(bs, dataAddr) || dataAddr <= HEADER_SIZE ==>
      forall x: nat | LiveByte(bs, x) && x < SRAM_SIZE :: FreeWrites(m, dataAddr)[x] == m[x]
  {
    if IsBlock(bs, dataAddr) {
      var i: nat :| IsBlockAt(bs, i, dataAddr);
      FreedAtBlock(bs, i, dataAddr);
      FreeBlockTiles(m, bs, i, dataAddr);
      hide FreedAt, FreeWrites, Tiles, LiveByte, Addr;
    }
  }

  lemma FreeBlockTiles(m: Memory, bs: seq<Block>, i: nat, dataAddr: u32)
    requires Tiles(m, bs) && IsBlockAt(bs, i, dataAddr)
    ensures Tiles(FreeWrites(m, dataAddr), Released(bs, i))
    ensures forall x: nat | LiveByte(bs, x) && x < SRAM_SIZE :: FreeWrites(m, dataAddr)[x] == m[x]
  {
    assert HeaderAt(m, Addr(bs, i), bs[i]);
    DecodeEncode(Stored(bs[i]));
    RewriteFree(m, bs, i);
    FreeWritesAt(m, Addr(bs, i), dataAddr);
    hide Tiles, Addr, Encode, Decode, LiveByte, Patch, FreeWrites;
    forall x: nat | LiveByte(bs, x) && x < SRAM_SIZE
      ensures FreeWrites(m, dataAddr)[x] == m[x]
    {
      LiveByteAway(bs, x, i);
    }
  }

  /** What `free` writes, by the cell the header starts at. */
  lemma FreeWritesAt(m: Memory, a: nat, dataAddr: u32)
    requires dataAddr > HEADER_SIZE && Cell(dataAddr - HEADER_SIZE, 0) == a && a + HEADER_SIZE <= SRAM_SIZE
    ensures var h := Decode(m[a..a + HEADER_SIZE]);
      FreeWrites(m, dataAddr) ==
        if h.magic == HEAP_MAGIC && h.free == 0 then Patch(m, a, Encode(h.(free := 1, owner := 0))) else m
  {
    hide Encode, Decode, Overwrite, Patch, BytesAt;
    assert Cell(a, 0) == a;
    hide Cell;
    var h := Decode(m[a..a + HEADER_SIZE]);
    var d := Encode(h.(free := 1, owner := 0));
    InsideBlock(m, a, d);
    SameCells(m, dataAddr - HEADER_SIZE, a, d);
  }

  /** Addresses that are the same modulo the chip size name the same bytes. */
  lemma SameCells(m: Memory, a: u32, b: u32, d: seq<u8>)
    requires Cell(a, 0) == Cell(b, 0) && |d| <= SRAM_SIZE
    ensures BytesAt(m, a, |d|) == BytesAt(m, b, |d|)
    ensures Overwrite(m, a, d) == Overwrite(m, b, d)
  {
    forall j: nat
      ensures Cell(a, j) == Cell(b, j) && Gap(a, j) == Gap(b, j)
    {
      SameCell(a, b, j);
    }
    hide Cell, Gap;
  }

  lemma SameCell(a: u32, b: u32, j: nat)
    requires Cell(a, 0) == Cell(b, 0)
    ensures Cell(a, j) == Cell(b, j) && Gap(a, j) == Gap(b, j)
  {
    var q, r := a / SRAM_SIZE, b / SRAM_SIZE;
    assert a == q * SRAM_SIZE + Cell(a, 0) && b == r * SRAM_SIZE + Cell(b, 0);
    assert a + j == (q - r) * SRAM_SIZE + (b + j) && j - a == (r - q) * SRAM_SIZE + (j - b);
    ShiftByMultiple(b + j, q - r);
    ShiftByMultiple(j - b, r - q);
  }

  lemma ShiftByMultiple(x: int, k: int)
    ensures (k * SRAM_SIZE + x) % SRAM_SIZE == x % SRAM_SIZE
  {
    assert k * SRAM_SIZE + x == (k + x / SRAM_SIZE) * SRAM_SIZE + x % SRAM_SIZE;
  }

  lemma RewriteFree(m: Memory, bs: seq<Block>, i: nat)
    requires Tiles(m, bs) && i < |bs|
    ensures Addr(bs, i) + HEADER_SIZE <= SRAM_SIZE && bs[i].size < 0x1_0000_0000
    ensures var b := Block(bs[i].size, true, 0); Tiles(Patch(m, Addr(bs, i), Encode(Stored(b))), bs[i := b])
  {
    assert BlockOk(bs[i]);
    RewriteHeader(m, bs, i, Block(bs[i].size, true, 0));
  }

  lemma ServeOutcome(m: Memory, bs: seq<Block>, i: nat, size: u16, owner: u8)
    requires Tiles(m, bs) && i < |bs| && size > 0 && Fits(bs[i], size) && i == FirstFit(bs, size)
    requires Addr(bs, i) + HEADER_SIZE + bs[i].size <= HEAP_TOTAL_SIZE
    ensures MallocSafe(bs, size) ==>
      Tiles(MallocWrites(m, Addr(bs, i), bs[i].size, size, owner), HeapBlocks.Malloc(bs, size, owner))
    ensures MallocSafe(bs, size) ==> forall x: nat | LiveByte(bs, x) && x < SRAM_SIZE ::
      MallocWrites(m, Addr(bs, i), bs[i].size, size, owner)[x] == m[x]
      && LiveByte(HeapBlocks.Malloc(bs, size, owner), x)
  {
    if MallocSafe(bs, size) {
      MallocTiles(m, bs, i, size, owner);
      hide LiveByte, Addr, MallocWrites, Allocated;
      forall x: nat | LiveByte(bs, x) && x < SRAM_SIZE
        ensures MallocWrites(m, Addr(bs, i), bs[i].size, size, owner)[x] == m[x]
        ensures LiveByte(Allocated(bs, i, size, owner), x)
      {
        MallocKeepsLive(m, bs, i, size, owner, x);
      }
    }
  }

  lemma MergeOutcome(m: Memory, bs: seq<Block>, i: nat)
    requires Tiles(m, bs) && i + 1 < |bs| && bs[i].free && bs[i + 1].free
    ensures Addr(bs, i) + HEADER_SIZE <= SRAM_SIZE && Merge(bs[i], bs[i + 1]).size < 0x1_0000_0000
    ensures Tiles(Patch(m, Addr(bs, i), Encode(Stored(Merge(bs[i], bs[i + 1])))), Merged(bs, i))
    ensures |Merged(bs, i)| == |bs| - 1 && Addr(Merged(bs, i), i) == Addr(bs, i)
    ensures Merged(bs, i)[..i] + Defrag(Merged(bs, i)[i..]) == bs[..i] + Defrag(bs[i..])
    ensures forall x: nat | LiveByte(bs, x) && x < SRAM_SIZE ::
      LiveByte(Merged(bs, i), x) && (x < Addr(bs, i) || x >= Addr(bs, i) + HEADER_SIZE)
  {
    MergeTiles(m, bs, i);
    MergedAddr(bs, i, i);
    MergedDefrag(bs, i);
    hide Addr, Tiles, Merged, LiveByte, Defrag;
    forall x: nat | LiveByte(bs, x) && x < SRAM_SIZE
      ensures LiveByte(Merged(bs, i), x) && (x < Addr(bs, i) || x >= Addr(bs, i) + HEADER_SIZE)
    {
      MergeKeepsLive(m, bs, i, x);
    }
  }

  lemma BlockInsideMem(m: Memory, bs: seq<Block>, i: nat)
    requires Tiles(m, bs) && i <= |bs|
    ensures Addr(bs, i) <= HEAP_TOTAL_SIZE && (Addr(bs, i) < HEAP_TOTAL_SIZE <==> i < |bs|)
    ensures i < |bs| ==> Addr(bs, i) + HEADER_SIZE + bs[i].size <= HEAP_TOTAL_SIZE
  {
    BlockInside(bs, i);
  }

  lemma DefragAdvance(bs: seq<Block>, i: nat)
    requires i < |bs| && (i + 1 < |bs| ==> !(bs[i].free && bs[i + 1].free))
    ensures bs[..i] + Defrag(bs[i..]) == bs[..i + 1] + Defrag(bs[i + 1..])
  {
    assert bs[i..][1..] == bs[i + 1..];
    if i + 1 == |bs| {
      assert bs[i..] == [bs[i]];
    }
    assert Defrag(bs[i..]) == [bs[i]] + Defrag(bs[i + 1..]);
    assert bs[..i + 1] == bs[..i] + [bs[i]];
  }

  lemma DefragDone(bs: seq<Block>, i: nat)
    requires i == |bs|
    ensures bs[..i] + Defrag(bs[i..]) == bs
  {
  }

  lemma MergedDefrag(bs: seq<Block>, i: nat)
    requires i + 1 < |bs| && bs[i].free && bs[i + 1].free
    ensures Merged(bs, i)[..i] == bs[..i]
    ensures Defrag(Merged(bs, i)[i..]) == Defrag(bs[i..])
  {
    assert bs[i..][2..] == bs[i + 2..];
    assert Merged(bs, i)[i..] == [Merge(bs[i], bs[i + 1])] + bs[i..][2..];
  }

  lemma DataWriteTiles(m: Memory, bs: seq<Block>, a: nat, b: u8)
    requires Tiles(m, bs) && LiveByte(bs, a) && a < SRAM_SIZE
    ensures Tiles(m[a := b], bs)
  {
    forall i: nat | i < |bs|
      ensures HeaderAt(m[a := b], Addr(bs, i), bs[i])
    {
      LiveByteAway(bs, a, i);
      assert HeaderAt(m, Addr(bs, i), bs[i]);
      assert m[a := b][Addr(bs, i)..Addr(bs, i) + HEADER_SIZE] == m[Addr(bs, i)..Addr(bs, i) + HEADER_SIZE];
    }
  }

  // ---------- Runs of calls and user writes ----------

  datatype HeapOp = Reset | Request(size: u16, owner: u8) | Release(addr: u32) | Compact | Store(cell: nat, b: u8)

  ghost function Step(bs: seq<Block>, op: HeapOp): seq<Block>
    requires Allowed(bs, op)
  {
    match op
    case Reset => INITIAL_BLOCKS
    case Request(size, owner) => HeapBlocks.Malloc(bs, size, owner)
    case Release(a) => FreedAt(bs, a)
    case Compact => Defrag(bs)
    case Store(_, _) => bs
  }

  /** What callers must do: ask within the split arithmetic, free addresses of blocks (or any the code refuses), and
      write only inside blocks in use. */
  ghost predicate Allowed(bs: seq<Block>, op: HeapOp) {
    match op
    case Request(size, _) => MallocSafe(bs, size)
    case Release(a) => a <= HEADER_SIZE || IsBlock(bs, a)
    case Store(a, _) => a < SRAM_SIZE && LiveByte(bs, a)
    case _ => true
  }

  ghost predicate Admissible(bs: seq<Block>, ops: seq<HeapOp>)
    decreases |ops|, 0
  {
    ops == [] || (Admissible(bs, ops[..|ops| - 1]) && Allowed(Run(bs, ops[..|ops| - 1]), ops[|ops| - 1]))
  }

  ghost function Run(bs: seq<Block>, ops: seq<HeapOp>): seq<Block>
    requires Admissible(bs, ops)
    decreases |ops|, 1
  {
    if ops == [] then bs else Step(Run(bs, ops[..|ops| - 1]), ops[|ops| - 1])
  }

  lemma RunNone(bs: seq<Block>)
    ensures Admissible(bs, []) && Run(bs, []) == bs
  {
  }

  lemma {:induction false} AdmissibleAt(bs: seq<Block>, ops: seq<HeapOp>, k: nat)
    requires Admissible(bs, ops) && k < |ops|
    ensures Admissible(bs, ops[..k]) && Allowed(Run(bs, ops[..k]), ops[k])
    ensures Admissible(bs, ops[..k + 1]) && Run(bs, ops[..k + 1]) == Step(Run(bs, ops[..k]), ops[k])
    decreases |ops|
  {
    if k < |ops| - 1 {
      AdmissibleAt(bs, ops[..|ops| - 1], k);
      assert ops[..|ops| - 1][..k] == ops[..k] && ops[..|ops| - 1][..k + 1] == ops[..k + 1];
    } else {
      assert ops[..k + 1] == ops;
    }
  }

  // ---------- What callers get back and find in memory ----------

  /** What a call returns: the data address of the block handed out, or 0. */
  function Answer(bs: seq<Block>, op: HeapOp): nat {
    match op
    case Request(size, _) =>
      if size == 0 || FirstFit(bs, size) == |bs| then 0 else Addr(bs, FirstFit(bs, size)) + HEADER_SIZE
    case _ => 0
  }

  ghost function Answers(bs: seq<Block>, ops: seq<HeapOp>): seq<nat>
    requires Admissible(bs, ops)
  {
    if ops == [] then []
    else Answers(bs, ops[..|ops| - 1]) + [Answer(Run(bs, ops[..|ops| - 1]), ops[|ops| - 1])]
  }

  datatype Known = Unknown | Byte(b: u8)

  /** The byte a user may count on in a cell after a run: the one last stored there, or there at the start, if its block
      has been in use ever since. */
  ghost function Held(bs: seq<Block>, m: Memory, ops: seq<HeapOp>, x: nat): Known
    requires Admissible(bs, ops) && x < SRAM_SIZE
  {
    if ops == [] then (if LiveByte(bs, x) then Byte(m[x]) else Unknown)
    else
      var held := Held(bs, m, ops[..|ops| - 1], x);
      match ops[|ops| - 1]
      case Reset => Unknown
      case Release(_) => if LiveByte(Run(bs, ops), x) then held else Unknown
      case Store(c, b) => if c == x then Byte(b) else held
      case _ => held
  }

  /** Blocks and memory after the run: every byte a user may count on is there, inside a block in use. */
  ghost predicate AllHeld(bs: seq<Block>, m: Memory, ops: seq<HeapOp>, now: seq<Block>, mem: Memory)
    requires Admissible(bs, ops)
  {
    forall x: nat | x < SRAM_SIZE ::
      Held(bs, m, ops, x).Byte? ==> LiveByte(now, x) && mem[x] == Held(bs, m, ops, x).b
  }

  lemma HeldAtStart(bs: seq<Block>, m: Memory)
    requires Admissible(bs, [])
    ensures AllHeld(bs, m, [], bs, m) && Answers(bs, []) == []
  {
  }

  /** What the methods guarantee about live bytes across one call. */
  ghost predicate Preserves(op: HeapOp, bs: seq<Block>, m: Memory, bs': seq<Block>, m': Memory) {
    match op
    case Reset => true
    case Store(c, b) => c < SRAM_SIZE && LiveByte(bs, c) && bs' == bs && m' == m[c := b]
    case Release(_) => forall x: nat | LiveByte(bs, x) && x < SRAM_SIZE :: m'[x] == m[x]
    case _ => forall x: nat | LiveByte(bs, x) && x < SRAM_SIZE :: m'[x] == m[x] && LiveByte(bs', x)
  }

  lemma HeldAfter(bs: seq<Block>, m: Memory, ops: seq<HeapOp>, k: nat,
                  before: seq<Block>, was: Memory, now: seq<Block>, mem: Memory)
    requires k < |ops| && Admissible(bs, ops[..k]) && Admissible(bs, ops[..k + 1])
    requires before == Run(bs, ops[..k]) && now == Run(bs, ops[..k + 1])
    requires AllHeld(bs, m, ops[..k], before, was) && Preserves(ops[k], before, was, now, mem)
    ensures AllHeld(bs, m, ops[..k + 1], now, mem)
    ensures Answers(bs, ops[..k + 1]) == Answers(bs, ops[..k]) + [Answer(before, ops[k])]
  {
    var upto := ops[..k + 1];
    assert upto[..k] == ops[..k] && upto[k] == ops[k];
    hide LiveByte, Run, Admissible;
    forall x: nat | x < SRAM_SIZE && Held(bs, m, upto, x).Byte?
      ensures LiveByte(now, x) && mem[x] == Held(bs, m, upto, x).b
    {
      assert !ops[k].Store? || ops[k].cell != x ==> Held(bs, m, ops[..k], x).Byte?;
    }
  }

  /** Every admissible run keeps the blocks well-formed. */
  lemma {:induction false} RunOk(bs: seq<Block>, ops: seq<HeapOp>)
    requires WellFormed(bs) && Admissible(bs, ops)
    ensures WellFormed(Run(bs, ops))
    decreases |ops|
  {
    if ops != [] {
      RunOk(bs, ops[..|ops| - 1]);
      StepOk(Run(bs, ops[..|ops| - 1]), ops[|ops| - 1]);
    }
  }

  lemma StepOk(bs: seq<Block>, op: HeapOp)
    requires WellFormed(bs) && Allowed(bs, op)
    ensures WellFormed(Step(bs, op))
  {
    hide WellFormed, FreedAt, HeapBlocks.Malloc, Defrag;
    match op
    case Reset => InitialOk();
    case Request(size, owner) => MallocOk(bs, size, owner);
    case Release(a) => FreedAtOk(bs, a);
    case Compact => DefragOk(bs);
    case Store(_, _) =>
  }

  lemma InitialOk()
    ensures WellFormed(INITIAL_BLOCKS)
  {
    SpanOne(INITIAL_BLOCKS[0]);
  }

  lemma FreedAtOk(bs: seq<Block>, dataAddr: u32)
    requires WellFormed(bs)
    ensures WellFormed(FreedAt(bs, dataAddr))
  {
    if IsBlock(bs, dataAddr) {
      var i: nat :| IsBlockAt(bs, i, dataAddr);
      FreedAtBlock(bs, i, dataAddr);
      ReleasedOk(bs, i);
    }
  }

  /** Request, release and compact, by the address the request returned, restore the very same blocks of a heap
      without adjacent free blocks iff that address is not the first data address. */
  lemma RequestReleaseCompact(bs: seq<Block>, size: u16, owner: u8)
    requires WellFormed(bs) && NoAdjacentFree(bs) && MallocSafe(bs, size)
    requires size > 0 && FirstFit(bs, size) < |bs|
    ensures var a := Addr(bs, FirstFit(bs, size)) + HEADER_SIZE;
      a < SRAM_SIZE && (Defrag(FreedAt(HeapBlocks.Malloc(bs, size, owner), a)) == bs <==> a > HEADER_SIZE)
  {
    hide Defrag, Freed, FreedAt, NoAdjacentFree, WellFormed;
    BlockInside(bs, FirstFit(bs, size));
    MallocSameAddr(bs, size, owner);
    var i := FirstFit(bs, size);
    FreedByItsAddress(HeapBlocks.Malloc(bs, size, owner), i, Addr(bs, i) + HEADER_SIZE);
    MallocFreeDefragRoundTrip(bs, size, owner);
    AddrEnds(bs);
    if FirstFit(bs, size) > 0 { AddrOrder(bs, 0, FirstFit(bs, size)); }
  }

  lemma MallocSameAddr(bs: seq<Block>, size: u16, owner: u8)
    requires MallocSafe(bs, size) && size > 0 && FirstFit(bs, size) < |bs|
    ensures FirstFit(bs, size) < |HeapBlocks.Malloc(bs, size, owner)|
    ensures Addr(HeapBlocks.Malloc(bs, size, owner), FirstFit(bs, size)) == Addr(bs, FirstFit(bs, size))
  {
    assert HeapBlocks.Malloc(bs, size, owner)[..FirstFit(bs, size)] == bs[..FirstFit(bs, size)];
  }

  // ---------- Requests whose split arithmetic wraps ----------

  /** What a first request of 64502 bytes leaves: a free block of 65532 bytes behind it. */
  lemma AfterLargeRequest(owner: u8)
    ensures MallocSafe(INITIAL_BLOCKS, 64502)
    ensures HeapBlocks.Malloc(INITIAL_BLOCKS, 64502, owner) == [Block(64502, false, owner), Block(65532, true, 0)]
    ensures WellFormed([Block(64502, false, owner), Block(65532, true, 0)])
  {
    assert FirstFit(INITIAL_BLOCKS, 64502) == 0 by { assert Fits(INITIAL_BLOCKS[0], 64502); }
    InitialOk();
    MallocOk(INITIAL_BLOCKS, 64502, owner);
  }

  /** The block that a second request meets, its size, and where it lies. */
  lemma SecondRequest(owner: u8, size: u16)
    requires 65525 <= size <= 65526
    ensures var bs := [Block(64502, false, owner), Block(65532, true, 0)];
      && FirstFit(bs, size) == 1 && Addr(bs, 1) == HEADER_SIZE + 64502
      && Splits(bs[1].size, size)
  {
    var bs := [Block(64502, false, owner), Block(65532, true, 0)];
    assert !Fits(bs[0], size) && Fits(bs[1], size);
    AddrEnds(bs);
    AddrNext(bs, 0);
  }

  /** Two requests from initialisation on whose second leaves headers that no longer tile the heap. */
  lemma BreakingRun(owner: u8, m: Memory, bs': seq<Block>)
    ensures var bs := HeapBlocks.Malloc(INITIAL_BLOCKS, 64502, owner);
      && FirstFit(bs, 65526) == 1 && BreaksHeap(bs, 1, 65526)
      && (Tiles(m, bs) ==> !Tiles(MallocWrites(m, Addr(bs, 1), bs[1].size, 65526, owner), bs'))
  {
    hide Addr, Tiles, MallocWrites, FirstFit, HeapBlocks.Malloc, WellFormed;
    AfterLargeRequest(owner);
    SecondRequest(owner, 65526);
    var bs := [Block(64502, false, owner), Block(65532, true, 0)];
    if Tiles(m, bs) {
      BrokenHeap(m, bs, 1, 65526, owner, bs');
    }
  }

  /** One byte less and the second request leaves a free block of no bytes at the end of the heap, which every walk
      passes over. */
  lemma EmptyRemainderRun(owner: u8)
    ensures var bs := HeapBlocks.Malloc(INITIAL_BLOCKS, 64502, owner);
      && MallocSafe(bs, 65525)
      && HeapBlocks.Malloc(bs, 65525, owner)
         == [Block(64502, false, owner), Block(65525, false, owner), Block(0, true, 0)]
      && WellFormed(HeapBlocks.Malloc(bs, 65525, owner))
  {
    AfterLargeRequest(owner);
    SecondRequest(owner, 65525);
    MallocOk([Block(64502, false, owner), Block(65532, true, 0)], 65525, owner);
  }
}
