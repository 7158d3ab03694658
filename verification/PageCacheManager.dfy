/** The manager itself: the fields of `PageCacheManager` updated in place, each method proved against the model. */
module PageCacheManagers {
  import opened Words
  import opened Sram
  import opened CacheSets
  import opened PageCacheModel
  import opened PageCacheInvariants
  import opened PagedAllocator
  import opened PagedViews
  import opened CachedScalars
  import opened Writebacks
  import opened PageCacheRuns

  class PageCacheManager {
    const physPages: array<Frame>
    const pageTable: array2<Pte>
    const cacheSets: array2<CacheLine>
    const sram: array<u8>  // the external chip, used by nobody else
    var logicalClock: u32

    ghost var view: State  // the value of all of the above

    ghost function Repr(): set<object> { {this, physPages, pageTable, cacheSets, sram} }

    ghost predicate Linked()
      reads Repr()
    {
      && physPages.Length == MAX_PHYSICAL_PAGES
      && pageTable.Length0 == MAX_PROCESSES && pageTable.Length1 == MAX_PAGES_PER_PROC
      && cacheSets.Length0 == CACHE_NUM_SETS && cacheSets.Length1 == CACHE_NUM_WAYS
      && sram.Length == SRAM_SIZE
      && physPages[..] == view.frames
      && sram[..] == view.mem
      && (forall p, l | 0 <= p < MAX_PROCESSES && 0 <= l < MAX_PAGES_PER_PROC :: pageTable[p, l] == view.table[p][l])
      && (forall k, w | 0 <= k < CACHE_NUM_SETS && 0 <= w < CACHE_NUM_WAYS :: cacheSets[k, w] == view.cache[k][w])
      && logicalClock == view.clock
    }

    ghost predicate Valid()
      reads Repr()
    {
      Linked() && Sound(view)
    }

    constructor (chip: array<u8>)
      requires chip.Length == SRAM_SIZE
      ensures Valid() && sram == chip && fresh(Repr() - {chip})
      ensures view == Initial(chip[..]) && chip[..] == old(chip[..])
    {
      physPages := new Frame[MAX_PHYSICAL_PAGES](_ => FREE_FRAME);
      pageTable := new Pte[MAX_PROCESSES, MAX_PAGES_PER_PROC]((_, _) => EMPTY_PTE);
      cacheSets := new CacheLine[CACHE_NUM_SETS, CACHE_NUM_WAYS]((_, _) => EMPTY_LINE);
      sram := chip;
      logicalClock := 0;
      view := Initial(chip[..]);
      new;
      InitialSound(chip[..]);
    }

    // ---------- Single updates ----------

    method SetFrame(f: nat, fr: Frame)
      requires Linked() && f < MAX_PHYSICAL_PAGES
      modifies physPages, this`view
      ensures Linked() && view == old(view).(frames := old(view).frames[f := fr])
    {
      physPages[f] := fr;
      view := view.(frames := view.frames[f := fr]);
    }

    method SetEntry(pid: nat, lp: nat, e: Pte)
      requires Linked() && pid < MAX_PROCESSES && lp < MAX_PAGES_PER_PROC
      modifies pageTable, this`view
      ensures Linked() && view == old(view).(table := SetPte(old(view).table, pid, lp, e))
    {
      pageTable[pid, lp] := e;
      view := view.(table := SetPte(view.table, pid, lp, e));
    }

    method SetLine(k: nat, w: nat, line: CacheLine)
      requires Linked() && k < CACHE_NUM_SETS && w < CACHE_NUM_WAYS
      modifies cacheSets, this`view
      ensures Linked() && view == old(view).(cache := old(view).cache[k := old(view).cache[k][w := line]])
    {
      cacheSets[k, w] := line;
      view := view.(cache := view.cache[k := view.cache[k][w := line]]);
    }

    method NextTick() returns (now: u32)
      requires Linked()
      modifies this`logicalClock, this`view
      ensures Linked() && now == Tick(old(view).clock) && view == old(view).(clock := now)
    {
      logicalClock := Wrap32(logicalClock + 1);
      now := logicalClock;
      view := view.(clock := now);
    }

    method WriteSramByte(pa: nat, b: u8)
      requires Linked() && pa < SRAM_SIZE
      modifies sram, this`view
      ensures Linked() && view == old(view).(mem := old(view).mem[pa := b])
    {
      sram[pa] := b;
      view := view.(mem := view.mem[pa := b]);
    }

    method ReadSramBlock(addr: u32) returns (d: LineData)
      requires Linked()
      ensures d == BytesAt(view.mem, addr, CACHE_LINE_SIZE)
    {
      var bytes: seq<u8> := [];
      for i := 0 to CACHE_LINE_SIZE
        invariant |bytes| == i && forall j | 0 <= j < i :: bytes[j] == BytesAt(view.mem, addr, CACHE_LINE_SIZE)[j]
      {
        bytes := bytes + [sram[Cell(addr, i)]];
      }
      d := bytes;
    }

    method WriteSramBlock(addr: u32, d: LineData)
      requires Linked()
      modifies sram, this`view
      ensures Linked() && view == old(view).(mem := Overwrite(old(view).mem, addr, d))
    {
      for i := 0 to CACHE_LINE_SIZE
        modifies sram
        invariant forall c | 0 <= c < SRAM_SIZE :: sram[c] == if Gap(addr, c) < i then d[Gap(addr, c)] else old(sram[c])
      {
        sram[Cell(addr, i)] := d[i];
        CellGap(addr, i);
        forall c | 0 <= c < SRAM_SIZE && Gap(addr, c) == i
          ensures c == Cell(addr, i)
        {
          CellGap(addr, c);
        }
      }
      view := view.(mem := Overwrite(view.mem, addr, d));
      assert sram[..] == view.mem;
    }

    // ---------- Queries ----------

    method FindFreeLine(k: nat) returns (way: int)
      requires Linked() && k < CACHE_NUM_SETS
      ensures way == if FreeWay(view.cache[k]) < CACHE_NUM_WAYS then FreeWay(view.cache[k]) else -1
    {
      for w := 0 to CACHE_NUM_WAYS
        invariant forall v | 0 <= v < w :: view.cache[k][v].valid
      {
        if !cacheSets[k, w].valid {
          return w;
        }
      }
      return -1;
    }

    method FindLRULine(k: nat) returns (idx: nat)
      requires Linked() && k < CACHE_NUM_SETS
      ensures idx == LruWay(view.cache[k])
    {
      ghost var c := view.cache[k];
      var oldest: u32 := 0xFFFF_FFFF;
      idx := 0;
      for w := 0 to CACHE_NUM_WAYS
        invariant idx < CACHE_NUM_WAYS
        invariant forall v | 0 <= v < w :: oldest <= c[v].lastAccess
        invariant forall v | 0 <= v < idx :: oldest < c[v].lastAccess
        invariant oldest == 0xFFFF_FFFF ==> idx == 0
        invariant oldest < 0xFFFF_FFFF ==> oldest == c[idx].lastAccess
      {
        if cacheSets[k, w].lastAccess < oldest {
          oldest := cacheSets[k, w].lastAccess;
          idx := w;
        }
      }
    }

    method FindFreePhysicalPage() returns (page: int)
      requires Linked()
      ensures page == if FirstFree(view.frames) < MAX_PHYSICAL_PAGES then FirstFree(view.frames) else -1
    {
      for i := 0 to MAX_PHYSICAL_PAGES
        invariant forall g | 0 <= g < i :: view.frames[g].status != PageFree
      {
        if physPages[i].status == PageFree {
          return i;
        }
      }
      return -1;
    }

    /** The least recently touched frame that is in use but has no reference left, if any. */
    method FindVictimPage() returns (victim: int)
      requires Linked()
      ensures -1 <= victim < MAX_PHYSICAL_PAGES
      ensures victim >= 0 ==> Unreferenced(view.frames[victim])
      ensures victim >= 0 ==> forall f | 0 <= f < MAX_PHYSICAL_PAGES && Unreferenced(view.frames[f]) ::
             view.frames[victim].accessTime <= view.frames[f].accessTime
      ensures victim >= 0 ==> forall f | 0 <= f < victim && Unreferenced(view.frames[f]) ::
             view.frames[victim].accessTime < view.frames[f].accessTime
      ensures victim < 0 ==> forall f | 0 <= f < MAX_PHYSICAL_PAGES && Unreferenced(view.frames[f]) ::
             view.frames[f].accessTime == 0xFFFF_FFFF
    {
      var oldest: u32 := 0xFFFF_FFFF;
      victim := -1;
      for i := 0 to MAX_PHYSICAL_PAGES
        invariant -1 <= victim < i
        invariant victim < 0 ==> oldest == 0xFFFF_FFFF
        invariant victim >= 0 ==> Unreferenced(view.frames[victim]) && oldest == view.frames[victim].accessTime
        invariant forall f | 0 <= f < i && Unreferenced(view.frames[f]) :: oldest <= view.frames[f].accessTime
        invariant forall f | 0 <= f < victim && Unreferenced(view.frames[f]) :: oldest < view.frames[f].accessTime
      {
        if physPages[i].status != PageFree && physPages[i].refCount == 0 {
          if physPages[i].accessTime < oldest {
            oldest := physPages[i].accessTime;
            victim := i;
          }
        }
      }
    }

    method TranslateAddress(pid: u8, addr: u32) returns (pa: u32)
      requires Linked()
      ensures pa == Translate(view.table, pid, addr)
    {
      if pid >= MAX_PROCESSES {
        return FAULT;
      }
      var lp, offset := Wrap16(addr / PAGE_SIZE), addr % PAGE_SIZE;
      if lp >= MAX_PAGES_PER_PROC {
        return FAULT;
      }
      if !pageTable[pid, lp].valid {
        return FAULT;
      }
      return pageTable[pid, lp].physicalPage * PAGE_SIZE + offset;
    }

    method IsValidAddress(pid: u8, addr: u32) returns (ok: bool)
      requires Linked()
      ensures ok == Mapped(view.table, pid, addr)
    {
      var pa := TranslateAddress(pid, addr);
      ok := pa != FAULT;
    }

    method GetFreePages() returns (count: nat)
      requires Linked()
      ensures count == FreeCount(view.frames)
    {
      count := 0;
      for i := 0 to MAX_PHYSICAL_PAGES
        invariant count == FreeCount(view.frames[..i])
      {
        assert view.frames[..i + 1][..i] == view.frames[..i];
        if physPages[i].status == PageFree {
          count := count + 1;
        }
      }
      assert view.frames[..MAX_PHYSICAL_PAGES] == view.frames;
    }

    // ---------- Cached access ----------

    method WriteLineToSram(addr: u32, k: nat, w: nat)
      requires Linked() && k < CACHE_NUM_SETS && w < CACHE_NUM_WAYS
      modifies sram, this`view
      ensures Linked() && view == old(view).(mem := Overwrite(old(view).mem, addr, old(view).cache[k][w].data))
    {
      WriteSramBlock(addr, cacheSets[k, w].data);
    }

    method ReadLineFromSram(addr: u32, k: nat, w: nat)
      requires Linked() && k < CACHE_NUM_SETS && w < CACHE_NUM_WAYS
      modifies this`logicalClock, cacheSets, this`view
      ensures Linked()
      ensures view == old(view).(clock := Tick(old(view).clock), cache := old(view).cache[k := old(view).cache[k][w :=
        CacheLine(addr / CACHE_LINE_SIZE, true, false, BytesAt(old(view).mem, addr, CACHE_LINE_SIZE),
                  Tick(old(view).clock))]])
    {
      var d := ReadSramBlock(addr);
      var now := NextTick();
      SetLine(k, w, CacheLine(addr / CACHE_LINE_SIZE, true, false, d, now));
    }

    method TouchPage(pid: u8, lp: u16)
      requires Linked()
      modifies this, pageTable, physPages
      ensures Linked() && view == Touch(old(view), pid, lp)
    {
      if pid < MAX_PROCESSES && lp < MAX_PAGES_PER_PROC && pageTable[pid, lp].valid {
        var e := pageTable[pid, lp];
        var now := NextTick();
        SetEntry(pid, lp, e.(accessCount := Wrap16(e.accessCount + 1), lastAccess := now));
        if e.physicalPage < MAX_PHYSICAL_PAGES {
          now := NextTick();
          SetFrame(e.physicalPage, physPages[e.physicalPage].(accessTime := now));
        }
      }
    }

    /** The way to fill on a miss. A dirty victim is written back. */
    method MakeRoom(k: nat) returns (way: nat)
      requires Linked() && k < CACHE_NUM_SETS
      modifies sram, this`view
      ensures Linked() && way == VictimWay(old(view).cache[k])
      ensures view == old(view).(mem :=
        if FreeWay(old(view).cache[k]) < CACHE_NUM_WAYS then old(view).mem
        else Code.WriteBack(old(view).mem, old(view).cache[k][way]))
    {
      hide Overwrite;
      var free := FindFreeLine(k);
      if free >= 0 {
        return free;
      }
      way := FindLRULine(k);
      if cacheSets[k, way].dirty {
        WriteLineToSram(Wrap32(cacheSets[k, way].tag * CACHE_LINE_SIZE), k, way);
      }
    }

    /** Find the line of a physical address, filling the victim way on a miss. Both byte accesses start like this. */
    method FetchLine(pa: nat) returns (way: nat)
      requires Linked() && pa < SRAM_SIZE
      modifies this`logicalClock, this`view, cacheSets, sram
      ensures Linked() && way == Slot(old(view).cache[SetOf(pa)], pa / CACHE_LINE_SIZE)
      ensures view == Fetched(old(view), pa)
    {
      var k, tag := SetOf(pa), pa / CACHE_LINE_SIZE;
      ghost var c := view.cache[k];
      hide Line, BytesAt, VictimWay, LruWay, FreeWay;
      for w := 0 to CACHE_NUM_WAYS
        invariant Linked() && view == old(view)
        invariant forall v | 0 <= v < w :: !Holds(c[v], tag)
      {
        if cacheSets[k, w].valid && cacheSets[k, w].tag == tag {
          assert Lookup(c, tag) == w == Slot(c, tag);
          var now := NextTick();
          SetLine(k, w, cacheSets[k, w].(lastAccess := now));
          return w;
        }
      }
      assert Lookup(c, tag) == CACHE_NUM_WAYS;
      way := FillLine(pa);
    }

    /** On a miss: make room, then fill the way from memory. */
    method FillLine(pa: nat) returns (way: nat)
      requires Linked() && pa < SRAM_SIZE
      requires Lookup(view.cache[SetOf(pa)], pa / CACHE_LINE_SIZE) == CACHE_NUM_WAYS
      modifies this`logicalClock, this`view, cacheSets, sram
      ensures Linked() && way == Slot(old(view).cache[SetOf(pa)], pa / CACHE_LINE_SIZE)
      ensures view == Fetched(old(view), pa)
    {
      FillIsFetch(view, pa);
      hide Line, BytesAt, Lookup, Code.WriteBack, Fetched;
      way := MakeRoom(SetOf(pa));
      AlignedBytes(view.mem, pa / CACHE_LINE_SIZE);
      ReadLineFromSram(pa - pa % CACHE_LINE_SIZE, SetOf(pa), way);
    }

    /** Reading through the cache; what the process sees in flat memory if the cache agrees with it. */
    method CacheReadByte(pid: u8, addr: u32) returns (b: u8)
      requires Valid()
      modifies Repr()
      ensures Valid() && view == Code.ReadByte(old(view), pid, addr) && b == Code.CachedByte(old(view), pid, addr)
      ensures Coherent(old(view).cache, old(view).mem) ==> b == Peek(old(view), pid, addr)
    {
      AccessKeepsSound(view, pid, addr, 0);
      ServedByte(view, pid, addr);
      var pa := TranslateAddress(pid, addr);
      if pa == FAULT {
        return 0;
      }
      var way := FetchLine(pa);
      hide Sound, Slot, AccessCache, Coherent, Code.RoomFor;
      TouchPage(pid, Wrap16(addr / PAGE_SIZE));
      b := cacheSets[SetOf(pa), way].data[pa % CACHE_LINE_SIZE];
    }

    /** Writing through the cache changes the byte in the line and in memory, and marks line and page dirty. */
    method CacheWriteByte(pid: u8, addr: u32, data: u8)
      requires Valid()
      modifies Repr()
      ensures Valid() && view == Code.WriteByte(old(view), pid, addr, data)
    {
      AccessKeepsSound(view, pid, addr, data);
      var pa := TranslateAddress(pid, addr);
      if pa == FAULT {
        return;
      }
      var lp := Wrap16(addr / PAGE_SIZE);
      var way := FetchLine(pa);
      hide Sound, Slot, AccessCache, StoreCache, Code.RoomFor;
      ghost var m := Code.RoomFor(old(view), pa).mem;
      var line := cacheSets[SetOf(pa), way];
      SetLine(SetOf(pa), way, line.(data := line.data[pa % CACHE_LINE_SIZE := data], dirty := true));
      StoreAfterFetch(old(view).cache, m, pa, Tick(old(view).clock), data);
      WriteSramByte(pa, data);
      SetEntry(pid, lp, pageTable[pid, lp].(dirty := true));
      TouchPage(pid, lp);
    }

    method CacheReadArray(pid: u8, addr: u32, buffer: array<u8>, len: u16)
      requires Valid() && buffer != sram && len <= buffer.Length
      modifies Repr(), buffer
      ensures Valid() && view == Code.ReadArray(old(view), pid, addr, len)
      ensures buffer[..len] == Code.CachedBytes(old(view), pid, addr, len)
      ensures Coherent(old(view).cache, old(view).mem) ==> buffer[..len] == PeekArray(old(view), pid, addr, len)
      ensures buffer[len..] == old(buffer[len..])
    {
      ghost var start := view;
      hide Sound, Code.ReadByte, Code.ReadArray, At, Code.CachedByte, Coherent, PeekArray;
      if Coherent(view.cache, view.mem) {
        CachedBytesAreMemory(view, pid, addr, len);
      }
      ReadArrayStart(start, pid, addr);
      for i := 0 to len
        invariant Valid() && view == Code.ReadArray(start, pid, addr, i)
        invariant forall j: nat | j < i :: buffer[j] == Code.CachedBytes(start, pid, addr, len)[j]
        invariant forall j | len <= j < buffer.Length :: buffer[j] == old(buffer[j])
      {
        ReadArrayStep(start, pid, addr, i);
        var b := CacheReadByte(pid, At(addr, i));
        buffer[i] := b;
      }
    }

    method CacheWriteArray(pid: u8, addr: u32, data: array<u8>, len: u16)
      requires Valid() && data != sram && len <= data.Length
      modifies Repr()
      ensures Valid() && view == Code.WriteArray(old(view), pid, addr, data[..len])
      ensures data[..] == old(data[..])
    {
      ghost var d := data[..len];
      AtStep(addr, 0);
      for i := 0 to len
        invariant Valid() && Code.WriteArray(old(view), pid, addr, d) == Code.WriteArray(view, pid, At(addr, i), d[i..])
        invariant data[..] == old(data[..])
      {
        WriteArrayStep(view, pid, addr, d, i);
        hide Sound, Code.WriteByte, Code.WriteArray, At;
        CacheWriteByte(pid, At(addr, i), data[i]);
      }
    }

    method CacheWriteUInt(pid: u8, addr: u32, data: u16)
      requires Valid()
      modifies Repr()
      ensures Valid() && view == Code.WriteArray(old(view), pid, addr, Bytes16(data))
    {
      CacheWrite16(pid, addr, data);
    }

    method CacheWriteInt(pid: u8, addr: u32, data: i16)
      requires Valid()
      modifies Repr()
      ensures Valid() && view == Code.WriteArray(old(view), pid, addr, Bytes16(data))
    {
      CacheWrite16(pid, addr, data);
    }

    method CacheWrite16(pid: u8, addr: u32, data: int)
      requires Valid()
      modifies Repr()
      ensures Valid() && view == Code.WriteArray(old(view), pid, addr, Bytes16(data))
    {
      WriteArrayTwo(view, pid, addr, Bytes16(data));
      hide Sound, Code.WriteByte, Code.WriteArray;
      CacheWriteByte(pid, addr, Wrap8(data / 0x100));
      CacheWriteByte(pid, At(addr, 1), Wrap8(data));
    }

    method CacheReadUInt(pid: u8, addr: u32) returns (x: u16)
      requires Valid()
      modifies Repr()
      ensures Valid() && view == Code.ReadArray(old(view), pid, addr, 2)
      ensures x == Join(Code.CachedBytes(old(view), pid, addr, 2))
    {
      ReadArrayTwo(view, pid, addr);
      hide Sound, Code.ReadByte, Code.ReadArray, Code.CachedByte, Coherent;
      var h := CacheReadByte(pid, addr);
      var l := CacheReadByte(pid, At(addr, 1));
      x := (h as int) * 0x100 + l;
      JoinTwo(Code.CachedBytes(old(view), pid, addr, 2));
    }

    method CacheReadInt(pid: u8, addr: u32) returns (x: i16)
      requires Valid()
      modifies Repr()
      ensures Valid() && view == Code.ReadArray(old(view), pid, addr, 2)
      ensures 0 <= Join(Code.CachedBytes(old(view), pid, addr, 2)) < 0x1_0000
      ensures x == Signed16(Join(Code.CachedBytes(old(view), pid, addr, 2)))
    {
      var u := CacheReadUInt(pid, addr);
      x := Signed16(u);
    }

    method CacheWriteULong(pid: u8, addr: u32, data: u32)
      requires Valid()
      modifies Repr()
      ensures Valid() && view == Code.WriteArray(old(view), pid, addr, Bytes32(data))
    {
      CacheWrite32(pid, addr, data);
    }

    method CacheWriteLong(pid: u8, addr: u32, data: i32)
      requires Valid()
      modifies Repr()
      ensures Valid() && view == Code.WriteArray(old(view), pid, addr, Bytes32(data))
    {
      CacheWrite32(pid, addr, data);
    }

    method CacheWrite32(pid: u8, addr: u32, data: int)
      requires Valid()
      modifies Repr()
      ensures Valid() && view == Code.WriteArray(old(view), pid, addr, Bytes32(data))
    {
      WriteArrayFour(view, pid, addr, Bytes32(data));
      hide Sound, Code.WriteByte, Code.WriteArray;
      CacheWriteByte(pid, addr, Wrap8(data / 0x100_0000));
      CacheWriteByte(pid, At(addr, 1), Wrap8(data / 0x1_0000));
      CacheWriteByte(pid, At(addr, 2), Wrap8(data / 0x100));
      CacheWriteByte(pid, At(addr, 3), Wrap8(data));
    }

    method CacheReadULong(pid: u8, addr: u32) returns (x: u32)
      requires Valid()
      modifies Repr()
      ensures Valid() && view == Code.ReadArray(old(view), pid, addr, 4)
      ensures x == Join(Code.CachedBytes(old(view), pid, addr, 4))
    {
      ReadArrayFour(view, pid, addr);
      hide Sound, Code.ReadByte, Code.ReadArray, Code.CachedByte, Coherent;
      var b0 := CacheReadByte(pid, addr);
      var b1 := CacheReadByte(pid, At(addr, 1));
      var b2 := CacheReadByte(pid, At(addr, 2));
      var b3 := CacheReadByte(pid, At(addr, 3));
      x := (b0 as int) * 0x100_0000 + (b1 as int) * 0x1_0000 + (b2 as int) * 0x100 + b3;
      JoinFour(Code.CachedBytes(old(view), pid, addr, 4));
    }

    method CacheReadLong(pid: u8, addr: u32) returns (x: i32)
      requires Valid()
      modifies Repr()
      ensures Valid() && view == Code.ReadArray(old(view), pid, addr, 4)
      ensures 0 <= Join(Code.CachedBytes(old(view), pid, addr, 4)) < 0x1_0000_0000
      ensures x == Signed32(Join(Code.CachedBytes(old(view), pid, addr, 4)))
    {
      var u := CacheReadULong(pid, addr);
      x := Signed32(u);
    }

    // ---------- Invalidating and flushing ----------

    method Init()
      requires Linked()
      modifies Repr()
      ensures Valid() && view == Initial(old(view).mem)
    {
      logicalClock := 0;
      for i := 0 to MAX_PHYSICAL_PAGES
        modifies physPages
        invariant forall f | 0 <= f < i :: physPages[f] == FREE_FRAME
      {
        physPages[i] := FREE_FRAME;
      }
      for p := 0 to MAX_PROCESSES
        modifies pageTable
        invariant forall q, l | 0 <= q < p && 0 <= l < MAX_PAGES_PER_PROC :: pageTable[q, l] == EMPTY_PTE
      {
        for i := 0 to MAX_PAGES_PER_PROC
          modifies pageTable
          invariant forall q, l | 0 <= q < p && 0 <= l < MAX_PAGES_PER_PROC :: pageTable[q, l] == EMPTY_PTE
          invariant forall l | 0 <= l < i :: pageTable[p, l] == EMPTY_PTE
        {
          pageTable[p, i] := EMPTY_PTE;
        }
      }
      for k := 0 to CACHE_NUM_SETS
        modifies cacheSets
        invariant forall j, w | 0 <= j < k && 0 <= w < CACHE_NUM_WAYS :: cacheSets[j, w] == EMPTY_LINE
      {
        for i := 0 to CACHE_NUM_WAYS
          modifies cacheSets
          invariant forall j, w | 0 <= j < k && 0 <= w < CACHE_NUM_WAYS :: cacheSets[j, w] == EMPTY_LINE
          invariant forall w | 0 <= w < i :: cacheSets[k, w] == EMPTY_LINE
        {
          cacheSets[k, i] := EMPTY_LINE;
        }
      }
      view := Initial(view.mem);
      InitialSound(view.mem);
    }

    /** Drops the line of the address. A dirty line is written back to the address as given, aligned or not. */
    method InvalidateLineAt(addr: u32)
      requires Linked()
      modifies cacheSets, sram, this`view
      ensures Linked() && view == InvalidateLine(old(view), addr)
      ensures Sound(old(view)) ==> Valid()
    {
      if Sound(view) {
        assert Sound(InvalidateLine(view, addr)) by {
          hide Sound, InvalidateLine;
          StepKeepsSound(view, DropLine(addr));
        }
      }
      hide Sound;
      var k, tag := (addr / CACHE_LINE_SIZE) % CACHE_NUM_SETS, addr / CACHE_LINE_SIZE;
      ghost var c := view.cache[k];
      for w := 0 to CACHE_NUM_WAYS
        invariant Linked() && view == old(view)
        invariant forall v | 0 <= v < w :: !Holds(c[v], tag)
      {
        if cacheSets[k, w].valid && cacheSets[k, w].tag == tag {
          assert Lookup(c, tag) == w;
          if cacheSets[k, w].dirty {
            WriteLineToSram(addr, k, w);
          }
          SetLine(k, w, cacheSets[k, w].(valid := false));
          return;
        }
      }
      assert Lookup(c, tag) == CACHE_NUM_WAYS;
    }

    /** The write-back scan for one line in `flushProcessCache`. */
    method CleanLine(addr: u32)
      requires Linked() && addr % CACHE_LINE_SIZE == 0
      modifies cacheSets, sram, this`view
      ensures Linked() && view == LineScrubbed(old(view), addr / CACHE_LINE_SIZE, false)
    {
      var k, tag := (addr / CACHE_LINE_SIZE) % CACHE_NUM_SETS, addr / CACHE_LINE_SIZE;
      ghost var c := view.cache[k];
      for w := 0 to CACHE_NUM_WAYS
        invariant Linked() && view == old(view)
        invariant forall v | 0 <= v < w :: !Holds(c[v], tag)
      {
        if cacheSets[k, w].valid && cacheSets[k, w].tag == tag {
          assert Lookup(c, tag) == w;
          if cacheSets[k, w].dirty {
            WriteLineToSram(addr, k, w);
            SetLine(k, w, cacheSets[k, w].(dirty := false));
          }
          assert c[w := c[w]] == c && old(view).cache[k := c] == old(view).cache;
          return;
        }
      }
      assert Lookup(c, tag) == CACHE_NUM_WAYS;
    }

    method ScrubFrameLines(f: FrameIndex, drop: bool)
      requires Linked()
      modifies cacheSets, sram, this`view
      ensures Linked() && view == Code.FrameWritten(old(view), f, drop).(cache := ScrubFrame(old(view).cache, f, drop))
    {
      var pageAddr := f * PAGE_SIZE;
      ghost var base, start := f * LINES_PER_PAGE, view;
      hide TagsScrubbed, LineScrubbed, InvalidateLine, Code.FrameWritten, ScrubFrame;
      ScrubNone(start, base, drop);
      for l := 0 to LINES_PER_PAGE
        invariant Linked() && view == TagsScrubbed(start, base, base + l, drop)
      {
        ScrubNext(start, base, base + l, drop);
        var lineAddr := pageAddr + l * CACHE_LINE_SIZE;
        assert lineAddr % CACHE_LINE_SIZE == 0 && lineAddr / CACHE_LINE_SIZE == base + l;
        if drop {
          AlignedDropIs(view, lineAddr);
          InvalidateLineAt(lineAddr);
        } else {
          CleanLine(lineAddr);
        }
      }
      FrameScrubbed(start, f, drop);
    }

    method InvalidateProcessCache(pid: u8)
      requires Valid()
      modifies cacheSets, sram, this`view
      ensures Valid() && view == Code.InvalidateProcess(old(view), pid)
    {
      assert Sound(Code.InvalidateProcess(view, pid)) by {
        hide Sound, Code.InvalidateProcess;
        StepKeepsSound(view, DropProcess(pid));
      }
      if pid >= MAX_PROCESSES {
        return;
      }
      ghost var start, row := view, view.table[pid];
      hide ScrubFrame, Sound, Code.FrameWritten, Code.ScrubProcess;
      ScrubNoPage(start, pid, true, row);
      for lp := 0 to MAX_PAGES_PER_PROC
        invariant Linked() && view == Code.ScrubProcess(start, pid, true, row[..lp]) && view.table == start.table
      {
        ScrubProcessNext(start, pid, true, row, lp);
        if pageTable[pid, lp].valid {
          FrameWrittenKeeps(view, pageTable[pid, lp].physicalPage, true);
          ScrubFrameLines(pageTable[pid, lp].physicalPage, true);
        }
      }
      assert row[..MAX_PAGES_PER_PROC] == row;
    }

    method FlushProcessCache(pid: u8)
      requires Valid()
      modifies cacheSets, pageTable, sram, this`view
      ensures Valid() && view == Code.FlushProcess(old(view), pid)
    {
      assert Sound(Code.FlushProcess(view, pid)) by {
        hide Sound, Code.FlushProcess;
        StepKeepsSound(view, FlushPages(pid));
      }
      if pid >= MAX_PROCESSES {
        return;
      }
      ghost var start, row := view, view.table[pid];
      hide ScrubFrame, Sound, Code.FrameWritten, Code.ScrubProcess;
      ScrubNoPage(start, pid, false, row);
      for lp := 0 to MAX_PAGES_PER_PROC
        invariant Linked() && view == Code.ScrubProcess(start, pid, false, row[..lp])
      {
        ScrubProcessNext(start, pid, false, row, lp);
        if pageTable[pid, lp].valid {
          FrameWrittenKeeps(view, pageTable[pid, lp].physicalPage, false);
          ScrubFrameLines(pageTable[pid, lp].physicalPage, false);
          SetEntry(pid, lp, pageTable[pid, lp].(dirty := false));
        }
      }
      assert row[..MAX_PAGES_PER_PROC] == row;
    }

    method FlushAllLines()
      requires Valid()
      modifies cacheSets, sram, this`view
      ensures Valid() && view == Code.FlushCache(old(view))
    {
      assert Sound(Code.FlushCache(view)) by {
        hide Sound, Code.FlushCache;
        StepKeepsSound(view, FlushAll);
      }
      ghost var start := view;
      hide Sound, FlushSet, Code.LinesWritten;
      for k := 0 to CACHE_NUM_SETS
        invariant Linked() && view == start.(cache := view.cache, mem := Code.SetsWritten(start.cache[..k], start.mem))
        invariant forall j | 0 <= j < k :: view.cache[j] == FlushSet(start.cache[j])
        invariant forall j | k <= j < CACHE_NUM_SETS :: view.cache[j] == start.cache[j]
      {
        SetsWrittenNext(start.cache, k, start.mem);
        FlushOneSet(k);
      }
      assert start.cache[..CACHE_NUM_SETS] == start.cache;
      assert view.cache == FlushCache(start).cache;
    }

    method FlushOneSet(k: nat)
      requires Linked() && k < CACHE_NUM_SETS
      modifies cacheSets, sram, this`view
      ensures Linked()
      ensures view == old(view).(cache := old(view).cache[k := FlushSet(old(view).cache[k])],
                                 mem := Code.LinesWritten(old(view).cache[k], old(view).mem))
    {
      ghost var start, c := view, view.cache[k];
      hide Code.LinesWritten, Code.WriteBack, FlushSet, FlushLine;
      LinesWrittenNone(c, start.mem);
      for w := 0 to CACHE_NUM_WAYS
        invariant Linked()
        invariant view == start.(cache := start.cache[k := view.cache[k]], mem := Code.LinesWritten(c[..w], start.mem))
        invariant forall v | 0 <= v < w :: view.cache[k][v] == FlushLine(c[v])
        invariant forall v | w <= v < CACHE_NUM_WAYS :: view.cache[k][v] == c[v]
      {
        LinesWrittenNext(c, w, start.mem);
        FlushOneLine(k, w);
      }
      assert c[..CACHE_NUM_WAYS] == c;
      FlushSetIs(c, view.cache[k]);
    }

    method FlushOneLine(k: nat, w: nat)
      requires Linked() && k < CACHE_NUM_SETS && w < CACHE_NUM_WAYS
      modifies cacheSets, sram, this`view
      ensures Linked()
      ensures view == old(view).(
        cache := old(view).cache[k := old(view).cache[k][w := FlushLine(old(view).cache[k][w])]],
        mem := if old(view).cache[k][w].valid then Code.WriteBack(old(view).mem, old(view).cache[k][w])
               else old(view).mem)
    {
      hide Overwrite;
      ghost var cache, c := view.cache, view.cache[k];
      if cacheSets[k, w].valid && cacheSets[k, w].dirty {
        WriteLineToSram(Wrap32(cacheSets[k, w].tag * CACHE_LINE_SIZE), k, w);
        SetLine(k, w, cacheSets[k, w].(dirty := false));
      }
      SetLine(k, w, cacheSets[k, w].(valid := false));
      assert view.cache[k] == c[w := FlushLine(c[w])];
      assert view.cache == cache[k := c[w := FlushLine(c[w])]];
    }

    method InvalidateAllLines()
      requires Valid()
      modifies cacheSets, this`view
      ensures Valid() && view == InvalidateAll(old(view))
    {
      assert Sound(InvalidateAll(view)) by {
        hide Sound, InvalidateAll;
        StepKeepsSound(view, DropAll);
      }
      hide Sound;
      for k := 0 to CACHE_NUM_SETS
        modifies cacheSets
        invariant forall j, w | 0 <= j < k && 0 <= w < CACHE_NUM_WAYS ::
          cacheSets[j, w] == view.cache[j][w].(valid := false, dirty := false)
        invariant forall j, w | k <= j < CACHE_NUM_SETS && 0 <= w < CACHE_NUM_WAYS ::
          cacheSets[j, w] == view.cache[j][w]
      {
        for i := 0 to CACHE_NUM_WAYS
          modifies cacheSets
          invariant forall j, w | 0 <= j < CACHE_NUM_SETS && 0 <= w < CACHE_NUM_WAYS ::
            cacheSets[j, w] == if j < k || (j == k && w < i)
                               then view.cache[j][w].(valid := false, dirty := false) else view.cache[j][w]
        {
          cacheSets[k, i] := cacheSets[k, i].(valid := false, dirty := false);
        }
      }
      view := InvalidateAll(view);
    }

    // ---------- Frames and page table ----------

    /** Takes the lowest free frame. Without one the code looks for a victim to evict; there never is one. */
    method AllocatePhysicalPage(pid: u8) returns (page: int)
      requires Valid()
      modifies this, physPages
      ensures Valid() && view == TakeFrame(old(view), pid)
      ensures page == if FirstFree(old(view).frames) < MAX_PHYSICAL_PAGES then FirstFree(old(view).frames) else -1
      ensures page < 0 ==> view == old(view)
    {
      assert Sound(TakeFrame(view, pid)) by {
        hide Sound, TakeFrame;
        StepKeepsSound(view, AllocateFrame(pid));
      }
      page := FindFreePhysicalPage();
      if page >= 0 {
        var now := NextTick();
        SetFrame(page, Frame(PageAllocated, pid, 1, now));
        return page;
      }
      page := FindVictimPage();
      NoVictim(view);
      if page < 0 {
        return -1;
      }
      assert false;
    }

    method FreePhysicalPageAt(f: u16)
      requires Valid()
      modifies physPages, this`view
      ensures Valid() && view == FreePhysicalPage(old(view), f)
    {
      assert Sound(FreePhysicalPage(view, f)) by {
        hide Sound, FreePhysicalPage;
        StepKeepsSound(view, FreeFrame(f));
      }
      hide Sound;
      Release(f);
    }

    method Release(f: u16)
      requires Linked()
      modifies physPages, this`view
      ensures Linked() && view == FreePhysicalPage(old(view), f)
    {
      if f >= MAX_PHYSICAL_PAGES {
        return;
      }
      if physPages[f].refCount > 0 {
        SetFrame(f, physPages[f].(refCount := physPages[f].refCount - 1));
      }
      if physPages[f].refCount == 0 {
        SetFrame(f, physPages[f].(status := PageFree, owner := 0, accessTime := 0));
      }
      assert view.frames == FreePhysicalPage(old(view), f).frames;
    }

    method MapPageAt(pid: u8, lp: u16, f: u16) returns (ok: bool)
      requires Valid()
      modifies this, physPages, pageTable
      ensures Valid() && view == MapPage(old(view), pid, lp, f) && ok == Mappable(pid, lp, f)
    {
      assert Sound(MapPage(view, pid, lp, f)) by {
        hide Sound, MapPage;
        StepKeepsSound(view, Map(pid, lp, f));
      }
      hide Sound, ReleaseFrame, SetPte, Tick, Wrap16;
      if pid >= MAX_PROCESSES || lp >= MAX_PAGES_PER_PROC {
        return false;
      }
      if f >= MAX_PHYSICAL_PAGES {
        return false;
      }
      if pageTable[pid, lp].valid {
        Release(pageTable[pid, lp].physicalPage);
      }
      Enter(pid, lp, f);
      return true;
    }

    /** The part of `mapPage` after the old mapping is released. */
    method Enter(pid: nat, lp: nat, f: FrameIndex)
      requires Linked() && pid < MAX_PROCESSES && lp < MAX_PAGES_PER_PROC
      modifies this, physPages, pageTable
      ensures Linked() && view == old(view).(
        clock := Tick(Tick(old(view).clock)),
        table := SetPte(old(view).table, pid, lp, Pte(f, true, false, 0, Tick(old(view).clock))),
        frames := old(view).frames[f := old(view).frames[f].(status := PageMapped,
          refCount := Wrap16(old(view).frames[f].refCount + 1), accessTime := Tick(Tick(old(view).clock)))])
    {
      hide SetPte, Tick, Wrap16;
      var now := NextTick();
      SetEntry(pid, lp, Pte(f, true, false, 0, now));
      now := NextTick();
      var refs := Wrap16(physPages[f].refCount + 1);
      SetFrame(f, physPages[f].(status := PageMapped, refCount := refs, accessTime := now));
    }

    method UnmapPageAt(pid: u8, lp: u16)
      requires Valid()
      modifies Repr()
      ensures Valid() && view == Code.UnmapPage(old(view), pid, lp)
    {
      assert Sound(Code.UnmapPage(view, pid, lp)) by {
        hide Sound, Code.UnmapPage;
        StepKeepsSound(view, Unmap(pid, lp));
      }
      if pid >= MAX_PROCESSES || lp >= MAX_PAGES_PER_PROC {
        return;
      }
      if !pageTable[pid, lp].valid {
        return;
      }
      hide Sound, ReleaseFrame, ScrubFrame, Code.FrameWritten;
      if pageTable[pid, lp].dirty {
        FrameWrittenKeeps(view, pageTable[pid, lp].physicalPage, true);
        ScrubFrameLines(pageTable[pid, lp].physicalPage, true);
      }
      Release(pageTable[pid, lp].physicalPage);
      SetEntry(pid, lp, pageTable[pid, lp].(valid := false, dirty := false, accessCount := 0));
    }

    // ---------- Paged allocator ----------

    /** The scan of `pagedMalloc` for the first run of n invalid entries. */
    method FindRun(pid: u8, n: nat) returns (start: nat, found: bool)
      requires Linked() && pid < MAX_PROCESSES && 0 < n <= MAX_PAGES_PER_PROC
      ensures found == (FirstFit(view.table[pid], n) < MAX_PAGES_PER_PROC)
      ensures found ==> start == FirstFit(view.table[pid], n)
    {
      ghost var row := view.table[pid];
      start := MAX_PAGES_PER_PROC;
      var contiguous := 0;
      for i := 0 to MAX_PAGES_PER_PROC
        invariant 0 <= contiguous <= i && contiguous < n
        invariant contiguous > 0 ==> start == i - contiguous
        invariant forall j | i - contiguous <= j < i :: !row[j].valid
        invariant contiguous < i ==> row[i - contiguous - 1].valid
        invariant forall k: nat | k + n <= i :: !Fits(row, k, n)
      {
        if !pageTable[pid, i].valid {
          if contiguous == 0 {
            start := i;
          }
          contiguous := contiguous + 1;
          if contiguous >= n {
            assert Fits(row, start, n);
            return start, true;
          }
        } else {
          contiguous := 0;
        }
      }
      found := false;
    }

    method PagedMallocAt(pid: u8, size: u16) returns (addr: u32)
      requires Valid()
      modifies Repr()
      ensures Valid() && view == Code.PagedMalloc(old(view), pid, size).0
      ensures addr == Code.PagedMalloc(old(view), pid, size).1
    {
      if pid >= MAX_PROCESSES || size == 0 {
        return 0;
      }
      var n := (size + PAGE_SIZE - 1) / PAGE_SIZE;
      if n > MAX_PAGES_PER_PROC {
        return 0;
      }
      var start, found := FindRun(pid, n);
      if !found {
        return 0;
      }
      hide Sound, MapRun, Code.UnmapRun;
      var got := MapRunAt(pid, start, n);
      if got < n {
        Rollback(pid, start, got);
        return 0;
      }
      return start * PAGE_SIZE;
    }

    /** The mapping loop of `pagedMalloc`; it stops early when frames run out. */
    method MapRunAt(pid: u8, start: nat, n: nat) returns (got: nat)
      requires Valid() && pid < MAX_PROCESSES && start + n <= MAX_PAGES_PER_PROC
      modifies this, physPages, pageTable
      ensures Valid() && view == MapRun(old(view), pid, start, n).0 && got == MapRun(old(view), pid, start, n).1
    {
      hide Valid, MapRun, MapsTo, MapFresh, HasFree;
      ghost var goal, total := MapRun(view, pid, start, n).0, MapRun(view, pid, start, n).1;
      MapsToStart(view, pid, start, n);
      got := 0;
      var more := true;
      while more && got < n
        invariant got <= n && Valid()
        invariant more ==> MapsTo(view, pid, start + got, n - got, goal, total - got)
        invariant !more ==> view == goal && got == total
        decreases n - got, more
      {
        MapsToNext(view, pid, start + got, n - got, goal, total - got);
        more := MapFreshPage(pid, start + got);
        if more {
          got := got + 1;
        }
      }
      if more {
        MapsToNone(view, pid, start + n, goal, total - n);
      }
    }

    /** One round of the mapping loop: take a frame and map it. */
    method MapFreshPage(pid: u8, lp: nat) returns (ok: bool)
      requires Valid() && pid < MAX_PROCESSES && lp < MAX_PAGES_PER_PROC
      modifies this, physPages, pageTable
      ensures Valid() && ok == HasFree(old(view))
      ensures view == if ok then MapFresh(old(view), pid, lp) else old(view)
    {
      hide Sound, MapPage, TakeFrame, FirstFree;
      var phys := AllocatePhysicalPage(pid);
      if phys < 0 {
        return false;
      }
      ok := MapPageAt(pid, lp, phys);
      assert ok;  // both indices are in range, so the code's failure branch is never taken
    }

    method Rollback(pid: u8, start: nat, n: nat)
      requires Valid() && pid < MAX_PROCESSES && start + n <= MAX_PAGES_PER_PROC
      modifies Repr()
      ensures Valid() && view == Code.UnmapRun(old(view), pid, start, n)
    {
      hide Sound, Code.UnmapPage, Code.UnmapRun;
      ghost var goal := Code.UnmapRun(view, pid, start, n);
      for j := 0 to n
        invariant Valid() && goal == Code.UnmapRun(view, pid, start + j, n - j)
      {
        UnmapRunNext(view, pid, start + j, n - j);
        UnmapPageAt(pid, start + j);
      }
      UnmapRunNext(view, pid, start + n, 0);
    }

    method CountRun(pid: u8, start: nat) returns (count: nat)
      requires Linked() && pid < MAX_PROCESSES && start < MAX_PAGES_PER_PROC
      ensures count == RunLength(view.table[pid], start)
    {
      count := 0;
      for i := start to MAX_PAGES_PER_PROC
        invariant count == i - start
        invariant RunLength(view.table[pid], start) == count + RunLength(view.table[pid], i)
      {
        if pageTable[pid, i].valid {
          count := count + 1;
        } else {
          return;
        }
      }
    }

    method PagedFreeAt(pid: u8, addr: u32)
      requires Valid()
      modifies Repr()
      ensures Valid() && view == Code.PagedFree(old(view), pid, addr)
    {
      if pid >= MAX_PROCESSES || addr == 0 {
        return;
      }
      var start := Wrap16(addr / PAGE_SIZE);
      if start >= MAX_PAGES_PER_PROC {
        return;
      }
      if !pageTable[pid, start].valid {
        return;
      }
      var count := CountRun(pid, start);
      Rollback(pid, start, count);
    }

    method PagedReallocAt(pid: u8, oldAddr: u32, newSize: u16) returns (addr: u32)
      requires Valid() && Indexable(pid, oldAddr, newSize)
      modifies Repr()
      ensures Valid() && view == Code.PagedRealloc(old(view), pid, oldAddr, newSize).0
      ensures addr == Code.PagedRealloc(old(view), pid, oldAddr, newSize).1
    {
      hide Sound, Code.PagedMalloc, Code.PagedFree, Code.CopyByte;
      if oldAddr == 0 {
        addr := PagedMallocAt(pid, newSize);
        return;
      }
      if newSize == 0 {
        PagedFreeAt(pid, oldAddr);
        return 0;
      }
      var start := Wrap16(oldAddr / PAGE_SIZE);
      if start >= MAX_PAGES_PER_PROC || !pageTable[pid, start].valid {
        return 0;
      }
      var oldPages := CountRun(pid, start);
      var oldSize := oldPages * PAGE_SIZE;
      if newSize <= oldSize {
        return oldAddr;
      }
      var newAddr := PagedMallocAt(pid, newSize);
      if newAddr == 0 {
        return 0;
      }
      var copyLen := if oldSize < newSize then oldSize else newSize;
      ghost var from := view;
      for i := 0 to copyLen
        invariant Valid() && view == Code.CopyBytes(from, pid, oldAddr, newAddr, i)
      {
        CopyOne(pid, At(oldAddr, i), At(newAddr, i));
      }
      PagedFreeAt(pid, oldAddr);
      return newAddr;
    }

    method CopyOne(pid: u8, from: u32, to: u32)
      requires Valid()
      modifies Repr()
      ensures Valid() && view == Code.CopyByte(old(view), pid, from, to)
    {
      hide Sound, Coherent, Code.ReadByte, Code.WriteByte, Code.CachedByte;
      var b := CacheReadByte(pid, from);
      CacheWriteByte(pid, to, b);
    }

    // ---------- Runs ----------

    /** One public call. */
    method Call(op: Op) returns (r: int)
      requires Valid() && InBounds(op)
      modifies Repr()
      ensures Valid() && view == Step(old(view), op) && r == Result(old(view), op)
    {
      hide Sound, Coherent, Initial, TakeFrame, FreePhysicalPage, MapPage, InvalidateLine, InvalidateAll;
      hide Code.UnmapPage, Code.ReadByte, Code.WriteByte, Code.CachedByte, Code.InvalidateProcess, Code.FlushCache;
      hide Code.FlushProcess, Code.PagedMalloc, Code.PagedFree, Code.PagedRealloc;
      r := 0;
      match op
      case Init => Init();
      case AllocateFrame(pid) => r := AllocatePhysicalPage(pid);
      case FreeFrame(f) => FreePhysicalPageAt(f);
      case Map(pid, lp, f) => var ok := MapPageAt(pid, lp, f); r := if ok then 1 else 0;
      case Unmap(pid, lp) => UnmapPageAt(pid, lp);
      case Read(pid, addr) => r := CacheReadByte(pid, addr);
      case Write(pid, addr, b) => CacheWriteByte(pid, addr, b);
      case DropProcess(pid) => InvalidateProcessCache(pid);
      case DropLine(addr) => InvalidateLineAt(addr);
      case FlushAll => FlushAllLines();
      case FlushPages(pid) => FlushProcessCache(pid);
      case DropAll => InvalidateAllLines();
      case Malloc(pid, size) => r := PagedMallocAt(pid, size);
      case Free(pid, addr) => PagedFreeAt(pid, addr);
      case Realloc(pid, oldAddr, size) => r := PagedReallocAt(pid, oldAddr, size);
    }

    /** Any run of public calls: the fields end up as the model says and every caller gets what the model says. */
    method Calls(ops: seq<Op>) returns (rs: seq<int>)
      requires Valid() && forall i | 0 <= i < |ops| :: InBounds(ops[i])
      modifies Repr()
      ensures Valid() && view == Run(old(view), ops) && rs == Results(old(view), ops)
    {
      rs := [];
      ghost var start := view;
      for i := 0 to |ops|
        invariant Valid() && view == Run(start, ops[..i]) && rs == Results(start, ops[..i])
      {
        assert ops[..i + 1][..i] == ops[..i];
        hide Sound, Step, Result;
        var r := Call(ops[i]);
        rs := rs + [r];
      }
      assert ops[..|ops|] == ops;
    }
  }

  /** `pagedRealloc` is given a process index in range where it uses it unchecked. */
  predicate InBounds(op: Op) { op.Realloc? ==> Indexable(op.pid, op.oldAddr, op.size) }

  lemma InitialSound(mem: Memory)
    ensures Sound(Initial(mem))
  {
    InitialInv(mem);
    AllocInvImpliesInv(Initial(mem));
    InvSound(Initial(mem));
  }

  /** The mapping loop, run from here, ends in `goal` after mapping `got` pages. */
  ghost predicate MapsTo(s: State, pid: u8, start: int, n: int, goal: State, got: int) {
    pid < MAX_PROCESSES && 0 <= start && 0 <= n && start + n <= MAX_PAGES_PER_PROC
    && MapRun(s, pid, start, n).0 == goal && MapRun(s, pid, start, n).1 == got
  }

  lemma MapsToStart(s: State, pid: u8, start: nat, n: nat)
    requires pid < MAX_PROCESSES && start + n <= MAX_PAGES_PER_PROC
    ensures MapsTo(s, pid, start, n, MapRun(s, pid, start, n).0, MapRun(s, pid, start, n).1)
  {
  }

  lemma MapsToNext(s: State, pid: u8, start: nat, n: nat, goal: State, got: int)
    requires MapsTo(s, pid, start, n, goal, got) && n > 0
    ensures !HasFree(s) ==> goal == s && got == 0
    ensures HasFree(s) ==> MapsTo(MapFresh(s, pid, start), pid, start + 1, n - 1, goal, got - 1)
  {
    hide MapFresh, HasFree;
  }

  lemma MapsToNone(s: State, pid: u8, start: nat, goal: State, got: int)
    requires MapsTo(s, pid, start, 0, goal, got)
    ensures goal == s && got == 0
  {
  }

  lemma NoVictim(s: State)
    requires Sound(s)
    ensures forall f | 0 <= f < MAX_PHYSICAL_PAGES :: !Unreferenced(s.frames[f])
  {
    forall f: FrameIndex
      ensures !Unreferenced(s.frames[f])
    {
      assert FrameCounted(s.frames[f], Mappings(s.table, f));
    }
  }

  /** The state after lines with tags from lo up to hi are scrubbed, with their write-backs. */
  function TagsScrubbed(s: State, lo: u32, hi: u32, drop: bool): State
    requires lo <= hi
  {
    s.(cache := ScrubTags(s.cache, lo, hi, drop), mem := Code.TagsWritten(s.cache, s.mem, lo, hi, drop))
  }

  function LineScrubbed(s: State, tag: u32, drop: bool): State {
    s.(cache := ScrubLine(s.cache, tag, drop), mem := Code.LineWritten(s.cache, s.mem, tag))
  }

  lemma FrameScrubbed(s: State, f: FrameIndex, drop: bool)
    ensures TagsScrubbed(s, f * LINES_PER_PAGE, f * LINES_PER_PAGE + LINES_PER_PAGE, drop)
         == Code.FrameWritten(s, f, drop).(cache := ScrubFrame(s.cache, f, drop))
  {
    hide ScrubTags, Code.TagsWritten;
  }

  lemma ScrubNone(s: State, lo: u32, drop: bool)
    ensures TagsScrubbed(s, lo, lo, drop) == s
  {
  }

  lemma ScrubNext(s: State, lo: u32, hi: u32, drop: bool)
    requires lo <= hi < 0xFFFF_FFFF
    ensures TagsScrubbed(s, lo, hi + 1, drop) == LineScrubbed(TagsScrubbed(s, lo, hi, drop), hi, drop)
  {
    hide ScrubLine, Code.LineWritten;
  }

  /** `invalidateLine` at the address where a line starts scrubs that line. */
  lemma AlignedDropIs(s: State, addr: u32)
    requires addr % CACHE_LINE_SIZE == 0
    ensures InvalidateLine(s, addr) == LineScrubbed(s, addr / CACHE_LINE_SIZE, true)
  {
    hide Overwrite;
  }

  lemma FrameWrittenKeeps(s: State, f: FrameIndex, drop: bool)
    ensures Code.FrameWritten(s, f, drop) == s.(mem := Code.FrameWritten(s, f, drop).mem)
  {
    hide Code.TagsWritten;
  }

  lemma UnmapRunNext(s: State, pid: u8, start: nat, n: nat)
    requires pid < MAX_PROCESSES && start + n <= MAX_PAGES_PER_PROC
    ensures Code.UnmapRun(s, pid, start, n) ==
      if n == 0 then s else Code.UnmapRun(Code.UnmapPage(s, pid, start), pid, start + 1, n - 1)
  {
    hide Code.UnmapPage;
  }

  lemma ScrubNoPage(s: State, pid: u8, drop: bool, row: PageRow)
    requires pid < MAX_PROCESSES
    ensures Code.ScrubProcess(s, pid, drop, row[..0]) == s
  {
  }

  /** The next page of a process, invalidated or flushed. */
  lemma ScrubProcessNext(s: State, pid: u8, drop: bool, row: PageRow, lp: nat)
    requires pid < MAX_PROCESSES && lp < MAX_PAGES_PER_PROC
    ensures var t := Code.ScrubProcess(s, pid, drop, row[..lp]);
      Code.ScrubProcess(s, pid, drop, row[..lp + 1]) ==
        if t.table[pid][lp].valid
        then ScrubPage(Code.FrameWritten(t, t.table[pid][lp].physicalPage, drop), pid, lp, drop) else t
  {
    assert row[..lp + 1][..lp] == row[..lp];
    hide ScrubPage, Code.FrameWritten;
  }

  lemma SetsWrittenNext(sets: seq<CacheSet>, k: nat, m: Memory)
    requires k < |sets|
    ensures Code.SetsWritten(sets[..k + 1], m) == Code.LinesWritten(sets[k], Code.SetsWritten(sets[..k], m))
  {
    assert sets[..k + 1][..k] == sets[..k];
  }

  lemma LinesWrittenNone(lines: seq<CacheLine>, m: Memory)
    ensures Code.LinesWritten(lines[..0], m) == m
  {
  }

  lemma FlushSetIs(c: CacheSet, d: CacheSet)
    requires forall w | 0 <= w < CACHE_NUM_WAYS :: d[w] == FlushLine(c[w])
    ensures d == FlushSet(c)
  {
  }

  lemma LinesWrittenNext(lines: seq<CacheLine>, w: nat, m: Memory)
    requires w < |lines|
    ensures Code.LinesWritten(lines[..w + 1], m) ==
      if lines[w].valid then Code.WriteBack(Code.LinesWritten(lines[..w], m), lines[w])
      else Code.LinesWritten(lines[..w], m)
  {
    assert lines[..w + 1][..w] == lines[..w];
  }

  /** The state after the line of the physical address is found or fetched. */
  function Fetched(s: State, pa: nat): State
    requires pa < SRAM_SIZE
  {
    var t := Code.RoomFor(s, pa);
    t.(clock := Tick(s.clock), cache := AccessCache(s.cache, t.mem, pa, Tick(s.clock)))
  }

  /** A miss: the victim way is filled once room is made. */
  lemma FillIsFetch(s: State, pa: nat)
    requires pa < SRAM_SIZE && Lookup(s.cache[SetOf(pa)], pa / CACHE_LINE_SIZE) == CACHE_NUM_WAYS
    ensures var k, tag := SetOf(pa), pa / CACHE_LINE_SIZE;
      var c, way := s.cache[k], VictimWay(s.cache[k]);
      var m := if FreeWay(c) < CACHE_NUM_WAYS then s.mem else Code.WriteBack(s.mem, c[way]);
      && Slot(c, tag) == way
      && Fetched(s, pa) == s.(mem := m, clock := Tick(s.clock),
           cache := s.cache[k := c[way := CacheLine(tag, true, false, Line(m, tag), Tick(s.clock))]])
  {
    hide Code.WriteBack, Line;
    assert !Holds(s.cache[SetOf(pa)][VictimWay(s.cache[SetOf(pa)])], pa / CACHE_LINE_SIZE);
  }

  lemma AccessKeepsSound(s: State, pid: u8, addr: u32, b: u8)
    requires Sound(s)
    ensures Sound(Code.ReadByte(s, pid, addr)) && Sound(Code.WriteByte(s, pid, addr, b))
  {
    hide Sound, Code.ReadByte, Code.WriteByte;
    StepKeepsSound(s, Read(pid, addr));
    StepKeepsSound(s, Write(pid, addr, b));
  }

  lemma ServedByte(s: State, pid: u8, addr: u32)
    ensures Coherent(s.cache, s.mem) ==> Code.CachedByte(s, pid, addr) == Peek(s, pid, addr)
  {
    if Coherent(s.cache, s.mem) { AccessRedundant(s, pid, addr, 0); }
  }

  lemma ReadArrayStart(s: State, pid: u8, addr: u32)
    ensures Code.ReadArray(s, pid, addr, 0) == s
  {
  }

  lemma ReadArrayStep(s: State, pid: u8, addr: u32, i: nat)
    ensures Code.ReadArray(s, pid, addr, i + 1) == Code.ReadByte(Code.ReadArray(s, pid, addr, i), pid, At(addr, i))
  {
    hide Code.ReadByte, At;
  }

  lemma AtNext(addr: u32, i: nat)
    ensures At(At(addr, i), 1) == At(addr, i + 1)
  {
    AtAt(addr, i, 1);
  }

  lemma WriteArrayStep(s: State, pid: u8, addr: u32, d: seq<u8>, i: nat)
    requires i < |d|
    ensures Code.WriteArray(s, pid, At(addr, i), d[i..])
         == Code.WriteArray(Code.WriteByte(s, pid, At(addr, i), d[i]), pid, At(addr, i + 1), d[i + 1..])
  {
    AtNext(addr, i);
    hide Code.WriteByte, At;
    assert d[i..][1..] == d[i + 1..];
  }

  lemma WriteArrayTwo(s: State, pid: u8, addr: u32, b: seq<u8>)
    requires |b| == 2
    ensures Code.WriteArray(s, pid, addr, b)
         == Code.WriteByte(Code.WriteByte(s, pid, addr, b[0]), pid, At(addr, 1), b[1])
  {
    hide Code.WriteByte, At;
    var t := Code.WriteByte(s, pid, addr, b[0]);
    assert Code.WriteArray(t, pid, At(addr, 1), b[1..])
        == Code.WriteArray(Code.WriteByte(t, pid, At(addr, 1), b[1]), pid, At(At(addr, 1), 1), b[1..][1..]);
  }

  lemma {:induction false} WriteArrayAppend(s: State, pid: u8, addr: u32, d: seq<u8>, e: seq<u8>)
    ensures Code.WriteArray(s, pid, addr, d + e)
         == Code.WriteArray(Code.WriteArray(s, pid, addr, d), pid, At(addr, |d|), e)
    decreases |d|
  {
    AtStep(addr, 0);
    if d == [] {
      assert d + e == e;
    } else {
      AtStep(addr, |d| - 1);
      hide Code.WriteByte, At;
      assert (d + e)[0] == d[0] && (d + e)[1..] == d[1..] + e;
      WriteArrayAppend(Code.WriteByte(s, pid, addr, d[0]), pid, At(addr, 1), d[1..], e);
    }
  }

  lemma WriteArrayFour(s: State, pid: u8, addr: u32, b: seq<u8>)
    requires |b| == 4
    ensures var t := Code.WriteByte(Code.WriteByte(s, pid, addr, b[0]), pid, At(addr, 1), b[1]);
      Code.WriteArray(s, pid, addr, b)
        == Code.WriteByte(Code.WriteByte(t, pid, At(addr, 2), b[2]), pid, At(addr, 3), b[3])
  {
    hide Code.WriteByte, Code.WriteArray, At;
    var d, e := b[..2], b[2..];
    assert b == d + e;
    WriteArrayAppend(s, pid, addr, d, e);
    WriteArrayTwo(s, pid, addr, d);
    AtNext(addr, 2);
    WriteArrayTwo(Code.WriteArray(s, pid, addr, d), pid, At(addr, 2), e);
  }

  /** The two reads of a 16-bit value are those of an array of two bytes. */
  lemma ReadArrayTwo(s: State, pid: u8, addr: u32)
    ensures var t := Code.ReadByte(s, pid, addr);
      && Code.ReadArray(s, pid, addr, 2) == Code.ReadByte(t, pid, At(addr, 1))
      && Code.CachedBytes(s, pid, addr, 2) == [Code.CachedByte(s, pid, addr), Code.CachedByte(t, pid, At(addr, 1))]
  {
    AtStep(addr, 0);
    ReadArrayStart(s, pid, addr);
    ReadArrayStep(s, pid, addr, 0);
    ReadArrayStep(s, pid, addr, 1);
    hide Code.ReadByte, Code.ReadArray, Code.CachedByte, At;
  }

  lemma ReadArrayFour(s: State, pid: u8, addr: u32)
    ensures var t := Code.ReadByte(s, pid, addr);
      var u := Code.ReadByte(t, pid, At(addr, 1));
      var v := Code.ReadByte(u, pid, At(addr, 2));
      && Code.ReadArray(s, pid, addr, 4) == Code.ReadByte(v, pid, At(addr, 3))
      && Code.CachedBytes(s, pid, addr, 4)
         == [Code.CachedByte(s, pid, addr), Code.CachedByte(t, pid, At(addr, 1)),
             Code.CachedByte(u, pid, At(addr, 2)), Code.CachedByte(v, pid, At(addr, 3))]
  {
    AtStep(addr, 0);
    ReadArrayStart(s, pid, addr);
    ReadArrayStep(s, pid, addr, 0);
    ReadArrayStep(s, pid, addr, 1);
    ReadArrayStep(s, pid, addr, 2);
    ReadArrayStep(s, pid, addr, 3);
    hide Code.ReadByte, Code.ReadArray, Code.CachedByte, At;
  }

  function SetOf(pa: nat): nat { pa / CACHE_LINE_SIZE % CACHE_NUM_SETS }

  lemma StoreAfterFetch(c: Cache, m: Memory, pa: nat, now: u32, b: u8)
    requires pa < SRAM_SIZE
    ensures var a, k := AccessCache(c, m, pa, now), SetOf(pa);
      var w := Slot(c[k], pa / CACHE_LINE_SIZE);
      StoreCache(c, m, pa, now, b)
        == a[k := a[k][w := a[k][w].(data := a[k][w].data[pa % CACHE_LINE_SIZE := b], dirty := true)]]
  {
    var k, tag := SetOf(pa), pa / CACHE_LINE_SIZE;
    var a := Access(c[k], tag, now, Line(m, tag));
    var w := Slot(c[k], tag);
    var line := a[w].(data := a[w].data[pa % CACHE_LINE_SIZE := b], dirty := true);
    assert a[w := line] == c[k][w := line];
  }

  predicate Unreferenced(fr: Frame) { fr.status != PageFree && fr.refCount == 0 }
}
