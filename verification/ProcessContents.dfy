/** What processes store stays: over runs of allocator calls, whatever other processes do in between. */
module ProcessContents {
  import opened Words
  import opened Sram
  import opened CacheSets
  import opened PageCacheModel
  import opened PageCacheInvariants
  import opened PagedAllocator
  import opened PagedViews
  import opened Writebacks
  import opened PagedLifetimes
  import opened PageCacheRuns
  import opened AllocatorRuns
  import opened StoredBytes

  // ---------- Scrubbing and unmapping keep a byte ----------

  lemma SameByteAgrees(c: Cache, m: Memory, m': Memory, pa: nat)
    requires pa < SRAM_SIZE && Agrees(c, m, pa) && m'[pa] == m[pa]
    ensures Agrees(c, m', pa)
  {
  }

  lemma LineWrittenKeeps(c: Cache, m: Memory, tag: u32, pa: nat)
    requires Shaped(c) && pa < SRAM_SIZE && Agrees(c, m, pa)
    ensures Code.LineWritten(c, m, tag)[pa] == m[pa]
  {
    hide Code.WriteBack;
    var k := tag % CACHE_NUM_SETS;
    if Lookup(c[k], tag) < CACHE_NUM_WAYS {
      WriteBackKeeps(c, m, k, Lookup(c[k], tag), pa);
    }
  }

  lemma ScrubLineKeeps(c: Cache, m: Memory, tag: u32, drop: bool, pa: nat)
    requires Shaped(c) && pa < SRAM_SIZE && Agrees(c, m, pa)
    ensures Shaped(ScrubLine(c, tag, drop)) && Agrees(ScrubLine(c, tag, drop), m, pa)
  {
    var k, t := tag % CACHE_NUM_SETS, pa / CACHE_LINE_SIZE;
    if t % CACHE_NUM_SETS == k {
      ScrubAgrees(c[k], k, tag, drop, t, pa % CACHE_LINE_SIZE, m[pa]);
    } else {
      ScrubShaped(c[k], k, tag, drop);
    }
    hide ScrubSet, SetAgrees, SetShaped;
  }

  lemma ScrubShaped(c: CacheSet, k: nat, tag: u32, drop: bool)
    requires SetShaped(c, k)
    ensures SetShaped(ScrubSet(c, tag, drop), k)
  {
  }

  lemma {:induction false} TagsKeep(c: Cache, m: Memory, lo: u32, hi: u32, drop: bool, pa: nat)
    requires Shaped(c) && pa < SRAM_SIZE && Agrees(c, m, pa) && lo <= hi
    ensures Shaped(ScrubTags(c, lo, hi, drop)) && Agrees(ScrubTags(c, lo, hi, drop), m, pa)
    ensures Code.TagsWritten(c, m, lo, hi, drop)[pa] == m[pa]
    decreases hi - lo
  {
    hide Shaped, ScrubLine, Code.LineWritten, SetAgrees;
    if lo < hi {
      var c', m' := ScrubTags(c, lo, hi - 1, drop), Code.TagsWritten(c, m, lo, hi - 1, drop);
      TagsKeep(c, m, lo, hi - 1, drop, pa);
      LineWrittenKeeps(c', m', hi - 1, pa);
      ScrubLineKeeps(c', m', hi - 1, drop, pa);
    }
  }

  lemma FrameKeepsByte(s: State, f: FrameIndex, drop: bool, pa: nat, b: u8)
    requires ByteIs(s, pa, b)
    ensures ByteIs(Code.FrameWritten(s, f, drop), pa, b)
    ensures ByteIs(Code.FrameWritten(s, f, drop).(cache := ScrubFrame(s.cache, f, drop)), pa, b)
  {
    hide Shaped, Agrees, ScrubTags, Code.TagsWritten;
    var lo: u32, hi: u32 := f * LINES_PER_PAGE, f * LINES_PER_PAGE + LINES_PER_PAGE;
    TagsKeep(s.cache, s.mem, lo, hi, drop, pa);
    var t := Code.FrameWritten(s, f, drop);
    SameByteAgrees(s.cache, s.mem, t.mem, pa);
    SameByteAgrees(ScrubFrame(s.cache, f, drop), s.mem, t.mem, pa);
  }

  lemma UnmapKeepsByte(s: State, pid: u8, lp: u16, pa: nat, b: u8)
    requires ByteIs(s, pa, b)
    ensures ByteIs(Code.UnmapPage(s, pid, lp), pa, b)
  {
    hide Shaped, Agrees, Code.TagsWritten, ScrubFrame, ReleaseFrame;
    if ValidPage(s.table, pid, lp) {
      FrameKeepsByte(s, s.table[pid][lp].physicalPage, true, pa, b);
    }
  }

  lemma {:induction false} UnmapRunKeepsByte(s: State, pid: u8, start: nat, n: nat, pa: nat, b: u8)
    requires ByteIs(s, pa, b) && pid < MAX_PROCESSES && start + n <= MAX_PAGES_PER_PROC
    ensures ByteIs(Code.UnmapRun(s, pid, start, n), pa, b)
    decreases n
  {
    hide ByteIs, Code.UnmapPage;
    if n > 0 {
      UnmapKeepsByte(s, pid, start, pa, b);
      UnmapRunKeepsByte(Code.UnmapPage(s, pid, start), pid, start + 1, n - 1, pa, b);
    }
  }

  lemma FreeKeepsByte(s: State, pid: u8, addr: u32, pa: nat, b: u8)
    requires ByteIs(s, pa, b)
    ensures ByteIs(Code.PagedFree(s, pid, addr), pa, b)
  {
    hide ByteIs;
    if addr != 0 && Mapped(s.table, pid, addr) {
      UnmapRunKeepsByte(s, pid, PageOf(addr), FreedPages(s.table, pid, addr), pa, b);
    }
  }

  lemma {:induction false} ScrubKeepsByte(s: State, pid: u8, drop: bool, row: seq<Pte>, pa: nat, b: u8)
    requires ByteIs(s, pa, b) && pid < MAX_PROCESSES && |row| <= MAX_PAGES_PER_PROC
    ensures ByteIs(Code.ScrubProcess(s, pid, drop, row), pa, b)
  {
    hide Shaped, Agrees, Code.TagsWritten, ScrubFrame;
    if row != [] {
      var lp := |row| - 1;
      var t := Code.ScrubProcess(s, pid, drop, row[..lp]);
      ScrubKeepsByte(s, pid, drop, row[..lp], pa, b);
      FrameKeepsByte(t, t.table[pid][lp].physicalPage, drop, pa, b);
    }
  }

  lemma {:induction false} LinesKeep(c: Cache, m: Memory, k: nat, n: nat, m': Memory, pa: nat)
    requires Shaped(c) && k < CACHE_NUM_SETS && n <= CACHE_NUM_WAYS && pa < SRAM_SIZE
    requires Agrees(c, m, pa) && m'[pa] == m[pa]
    ensures Code.LinesWritten(c[k][..n], m')[pa] == m[pa]
    decreases n
  {
    hide Shaped, SetAgrees, Code.WriteBack;
    if n > 0 {
      assert c[k][..n][..n - 1] == c[k][..n - 1];
      LinesKeep(c, m, k, n - 1, m', pa);
      if c[k][n - 1].valid {
        WriteBackKeeps(c, Code.LinesWritten(c[k][..n - 1], m'), k, n - 1, pa);
      }
    }
  }

  lemma {:induction false} SetsKeep(c: Cache, m: Memory, n: nat, pa: nat)
    requires Shaped(c) && n <= CACHE_NUM_SETS && pa < SRAM_SIZE && Agrees(c, m, pa)
    ensures Code.SetsWritten(c[..n], m)[pa] == m[pa]
    decreases n
  {
    hide Shaped, SetAgrees, Code.LinesWritten;
    if n > 0 {
      assert c[..n][..n - 1] == c[..n - 1];
      SetsKeep(c, m, n - 1, pa);
      LinesKeep(c, m, n - 1, CACHE_NUM_WAYS, Code.SetsWritten(c[..n - 1], m), pa);
      assert c[n - 1][..CACHE_NUM_WAYS] == c[n - 1];
    }
  }

  lemma FlushKeepsByte(s: State, pa: nat, b: u8)
    requires ByteIs(s, pa, b)
    ensures ByteIs(Code.FlushCache(s), pa, b) && ByteIs(InvalidateAll(s), pa, b)
  {
    SetsKeep(s.cache, s.mem, CACHE_NUM_SETS, pa);
    assert s.cache[..CACHE_NUM_SETS] == s.cache;
    hide Code.SetsWritten;
    EmptyCaches(s);
  }

  lemma EmptyCaches(s: State)
    ensures forall k, w | 0 <= k < CACHE_NUM_SETS && 0 <= w < CACHE_NUM_WAYS ::
      !Code.FlushCache(s).cache[k][w].valid && !InvalidateAll(s).cache[k][w].valid
  {
    hide Code.SetsWritten;
  }

  /** The write-back of `invalidateLine` at an address inside the line covers the byte. */
  predicate Disturbs(s: State, addr: u32, pa: nat) {
    DirtyHit(s.cache, addr) && addr % CACHE_LINE_SIZE != 0 && Gap(addr, pa) < CACHE_LINE_SIZE
  }

  lemma DropKeepsByte(s: State, addr: u32, pa: nat, b: u8)
    requires ByteIs(s, pa, b) && !Disturbs(s, addr, pa)
    ensures ByteIs(InvalidateLine(s, addr), pa, b)
  {
    var tag := addr / CACHE_LINE_SIZE;
    hide Shaped, Agrees, ScrubLine;
    ScrubLineKeeps(s.cache, s.mem, tag, true, pa);
    DropKeepsCell(s, addr, pa);
    assert InvalidateLine(s, addr).cache == ScrubLine(s.cache, tag, true);
    SameByteAgrees(ScrubLine(s.cache, tag, true), s.mem, InvalidateLine(s, addr).mem, pa);
  }

  lemma DropKeepsCell(s: State, addr: u32, pa: nat)
    requires Shaped(s.cache) && pa < SRAM_SIZE && Agrees(s.cache, s.mem, pa) && !Disturbs(s, addr, pa)
    ensures InvalidateLine(s, addr).mem[pa] == s.mem[pa]
  {
    var tag := addr / CACHE_LINE_SIZE;
    hide Shaped, Agrees, ScrubLine, Lookup, Gap, Cell;
    if DirtyHit(s.cache, addr) && addr % CACHE_LINE_SIZE == 0 {
      LineWrittenKeeps(s.cache, s.mem, tag, pa);
      AlignedDropWrites(s, addr);
    }
  }

  lemma AlignedDropWrites(s: State, addr: u32)
    requires DirtyHit(s.cache, addr) && addr % CACHE_LINE_SIZE == 0
    ensures InvalidateLine(s, addr).mem == Code.LineWritten(s.cache, s.mem, addr / CACHE_LINE_SIZE)
  {
    hide ScrubLine, Overwrite;
  }

  // ---------- Copying keeps a byte it does not write ----------

  lemma {:induction false} CopyKeepsByte(s: State, pid: u8, from: u32, to: u32, n: nat, pa: nat, b: u8)
    requires ByteIs(s, pa, b) && Misses(s.table, pid, to, n, pa)
    ensures ByteIs(Code.CopyBytes(s, pid, from, to, n), pa, b)
    decreases n
  {
    hide ByteIs, At, Translate, SameMap, Code.ReadByte, Code.WriteByte, Code.CachedByte;
    if n > 0 {
      var t, x := Code.CopyBytes(s, pid, from, to, n - 1), At(to, n - 1);
      CopyKeepsByte(s, pid, from, to, n - 1, pa, b);
      CopyKeepsMap(s, pid, from, to, n - 1);
      var u := Code.ReadByte(t, pid, At(from, n - 1));
      ReadKeepsByte(t, pid, At(from, n - 1), pa, b);
      AccessKeepsMap(t, pid, At(from, n - 1), 0);
      SameMapMapped(s.table, t.table, pid, x);
      SameMapMapped(t.table, u.table, pid, x);
      ByteIsShaped(u, pa, b);
      WriteKeepsByte(u, pid, x, Code.CachedByte(t, pid, At(from, n - 1)), pa, b);
    }
  }

  /** No byte of a new block is one that another address mapped before the grant maps. */
  lemma BlockMisses(t: PageTable, u: PageTable, pid: u8, start: nat, n: nat, len: nat, q: u8, a: u32)
    requires Injective(u) && pid < MAX_PROCESSES && start + n <= MAX_PAGES_PER_PROC && start < MAX_PAGES_PER_PROC
    requires len <= n * PAGE_SIZE && (q != pid || !InBlock(start, n, PageOf(a))) && Mapped(u, q, a)
    ensures Misses(u, pid, start * PAGE_SIZE, len, Translate(u, q, a))
  {
    hide At, PageOf, Translate, Mapped, Injective, SameAddress;
    AmongBlock(a, start, n, len);
    TranslateInBounds(u, q, a);
    forall i: nat | i < len
      ensures Translate(u, pid, At(start * PAGE_SIZE, i)) != Translate(u, q, a)
    {
      if Mapped(u, pid, At(start * PAGE_SIZE, i)) {
        TranslateInjective(u, q, a, pid, At(start * PAGE_SIZE, i));
      } else {
        TranslateFault(u, pid, At(start * PAGE_SIZE, i));
      }
    }
  }

  lemma TranslateFault(t: PageTable, pid: u8, addr: u32)
    requires !Mapped(t, pid, addr)
    ensures Translate(t, pid, addr) == FAULT
  {
  }

  // ---------- One call ----------

  /** Before and after a call the address is mapped to the same byte, on which cache and memory agree. */
  ghost predicate Kept(s: State, r: State, q: u8, a: u32, b: u8) {
    && Mapped(s.table, q, a) && Mapped(r.table, q, a)
    && Translate(r.table, q, a) == Translate(s.table, q, a)
    && ByteIs(r, Translate(s.table, q, a), b)
  }

  lemma MallocKept(s: State, pid: u8, size: u16, q: u8, a: u32, b: u8)
    requires Mapped(s.table, q, a) && ByteIs(s, Translate(s.table, q, a), b)
    ensures Kept(s, Code.PagedMalloc(s, pid, size).0, q, a, b)
  {
    hide Code.PagedMalloc, PagedMalloc, PageOf, Shaped, Agrees, AllocInv, Exact, FreshRun, BusyKept, FreeCount;
    var r := Code.PagedMalloc(s, pid, size).0;
    if Granted(s, pid, size) {
      MallocGranted(s, pid, size);
      FitsAvoidsMapped(s.table, Place(s.table, pid, size), PagesFor(size), pid, q, a);
    } else {
      MallocRefused(s, pid, size);
    }
    assert r.table[q][PageOf(a)] == s.table[q][PageOf(a)];
  }

  lemma FreeKept(s: State, pid: u8, addr: u32, q: u8, a: u32, b: u8)
    requires Mapped(s.table, q, a) && ByteIs(s, Translate(s.table, q, a), b)
    requires Mapped(Code.PagedFree(s, pid, addr).table, q, a)
    ensures Kept(s, Code.PagedFree(s, pid, addr), q, a, b)
  {
    hide Code.PagedFree, PageOf, ByteIs;
    var r := Code.PagedFree(s, pid, addr);
    FreeOutcome(s, pid, addr);
    FreeKeepsByte(s, pid, addr, Translate(s.table, q, a), b);
    assert r.table[q][PageOf(a)] == s.table[q][PageOf(a)];
  }

  lemma SameMapKept(s: State, r: State, q: u8, a: u32, b: u8)
    requires Mapped(s.table, q, a) && SameMap(s.table, r.table) && ByteIs(r, Translate(s.table, q, a), b)
    ensures Kept(s, r, q, a, b)
  {
    hide ByteIs;
    SameMapMapped(s.table, r.table, q, a);
  }

  lemma KeptTrans(s: State, r: State, t: State, q: u8, a: u32, b: u8)
    requires Kept(s, r, q, a, b) && Kept(r, t, q, a, b)
    ensures Kept(s, t, q, a, b)
  {
  }

  lemma GrowKept(s: State, pid: u8, oldAddr: u32, size: u16, q: u8, a: u32, b: u8)
    requires AllocSound(s) && Grows(s.table, pid, oldAddr, size) && Granted(s, pid, size)
    requires Place(s.table, pid, size) != 0
    requires Mapped(s.table, q, a) && ByteIs(s, Translate(s.table, q, a), b)
    requires Mapped(Code.PagedRealloc(s, pid, oldAddr, size).0.table, q, a)
    ensures Kept(s, Code.PagedRealloc(s, pid, oldAddr, size).0, q, a, b)
  {
    hide Code.PagedMalloc, Code.PagedFree, Code.PagedRealloc, Code.CopyBytes, PageOf, Kept, ByteIs, Mapped, Translate;
    hide Injective, Exact, Owned, Shaped, DirtyTracked, FreshRun, SameMap, Place;
    var n, start, m := PagesFor(size), Place(s.table, pid, size), Code.PagedMalloc(s, pid, size);
    var len := FreedPages(s.table, pid, oldAddr) * PAGE_SIZE;
    var c := Copied(s, pid, oldAddr, size);
    GrowUnfold(s, pid, oldAddr, size);
    MallocGranted(s, pid, size);
    FitsAvoidsMapped(s.table, start, n, pid, q, a);
    MallocKept(s, pid, size, q, a, b);
    KeptParts(s, m.0, q, a, b);
    StepKeepsAllocSound(s, Malloc(pid, size));
    BlockMisses(s.table, m.0.table, pid, start, n, len, q, a);
    CopyKeepsByte(m.0, pid, oldAddr, m.1, len, Translate(m.0.table, q, a), b);
    CopyKeepsMap(m.0, pid, oldAddr, m.1, len);
    SameMapKept(m.0, c, q, a, b);
    KeptParts(m.0, c, q, a, b);
    FreeKept(c, pid, oldAddr, q, a, b);
    KeptTrans(s, m.0, c, q, a, b);
    KeptTrans(s, c, Code.PagedFree(c, pid, oldAddr), q, a, b);
  }

  lemma KeptParts(s: State, r: State, q: u8, a: u32, b: u8)
    requires Kept(s, r, q, a, b)
    ensures Mapped(r.table, q, a) && Translate(r.table, q, a) == Translate(s.table, q, a)
    ensures ByteIs(r, Translate(r.table, q, a), b)
  {
  }

  lemma ReallocKept(s: State, pid: u8, oldAddr: u32, size: u16, q: u8, a: u32, b: u8)
    requires AllocSound(s) && Mapped(s.table, q, a) && ByteIs(s, Translate(s.table, q, a), b)
    requires Mapped(Code.PagedRealloc(s, pid, oldAddr, size).0.table, q, a)
    ensures Kept(s, Code.PagedRealloc(s, pid, oldAddr, size).0, q, a, b)
  {
    if Grows(s.table, pid, oldAddr, size) && Granted(s, pid, size) && Place(s.table, pid, size) != 0 {
      GrowKept(s, pid, oldAddr, size, q, a, b);
    } else {
      hide Code.PagedMalloc, Code.PagedFree, Code.CopyBytes, ByteIs, AllocSound;
      MallocKept(s, pid, size, q, a, b);
      if Grows(s.table, pid, oldAddr, size) {
        RefusedAnswer(s, pid, size);
      } else if oldAddr != 0 && size == 0 {
        FreeKept(s, pid, oldAddr, q, a, b);
      }
    }
  }

  lemma RefusedAnswer(s: State, pid: u8, size: u16)
    requires Granted(s, pid, size) ==> Place(s.table, pid, size) == 0
    ensures Code.PagedMalloc(s, pid, size).1 == 0
  {
    hide Code.PagedMalloc;
    if Granted(s, pid, size) { MallocGranted(s, pid, size); } else { MallocRefused(s, pid, size); }
  }

  /** The call writes the address. */
  predicate Writes(op: Op, q: u8, a: u32) { op.Write? && op.pid == q && SameAddress(op.addr, a) }

  /** Across any allocator call an address that stays mapped stays mapped to its byte, and the byte is the one just
      written or the one it was, unless a misplaced write-back covers it. */
  lemma StepKept(s: State, op: Op, q: u8, a: u32, b: u8)
    requires AllocSound(s) && AllocatorOp(op) && Mapped(s.table, q, a) && Mapped(Step(s, op).table, q, a)
    requires if Writes(op, q, a) then op.b == b else ByteIs(s, Translate(s.table, q, a), b)
    requires op.DropLine? ==> !Disturbs(s, op.addr, Translate(s.table, q, a))
    ensures Kept(s, Step(s, op), q, a, b)
  {
    hide ByteIs, Kept, Mapped, Translate, Injective, Exact, Owned, Shaped, DirtyTracked, SameMap, SameAddress, PageOf;
    hide Code.ReadByte, Code.WriteByte, Code.FlushCache, InvalidateLine, InvalidateAll, Disturbs;
    hide Code.PagedMalloc, Code.PagedFree, Code.PagedRealloc, Code.ScrubProcess;
    var pa := Translate(s.table, q, a);
    SameRefl(s);
    match op
    case Init => InitialMapsNothing(s.mem, q, a);
    case Read(pid, addr) =>
      AccessKeepsMap(s, pid, addr, 0);
      ReadKeepsByte(s, pid, addr, pa, b);
      SameMapKept(s, Step(s, op), q, a, b);
    case Write(pid, addr, e) => WriteKept(s, pid, addr, e, q, a, b);
    case DropProcess(pid) => ScrubKept(s, pid, true, q, a, b);
    case FlushPages(pid) => ScrubKept(s, pid, false, q, a, b);
    case DropLine(addr) => DropKeepsByte(s, addr, pa, b); DropSameMap(s, addr); SameMapKept(s, Step(s, op), q, a, b);
    case FlushAll => FlushKeepsByte(s, pa, b); EmptySameMap(s); SameMapKept(s, Step(s, op), q, a, b);
    case DropAll => FlushKeepsByte(s, pa, b); EmptySameMap(s); SameMapKept(s, Step(s, op), q, a, b);
    case Malloc(pid, size) => MallocKept(s, pid, size, q, a, b);
    case Free(pid, addr) => FreeKept(s, pid, addr, q, a, b);
    case Realloc(pid, oldAddr, size) => ReallocKept(s, pid, oldAddr, size, q, a, b);
  }

  lemma InitialMapsNothing(mem: Memory, q: u8, a: u32)
    ensures !Mapped(Initial(mem).table, q, a)
  {
  }

  lemma DropSameMap(s: State, addr: u32)
    ensures SameMap(s.table, InvalidateLine(s, addr).table)
  {
  }

  lemma EmptySameMap(s: State)
    ensures SameMap(s.table, Code.FlushCache(s).table) && SameMap(s.table, InvalidateAll(s).table)
  {
    hide Code.SetsWritten;
  }

  lemma ScrubKept(s: State, pid: u8, drop: bool, q: u8, a: u32, b: u8)
    requires Mapped(s.table, q, a) && ByteIs(s, Translate(s.table, q, a), b)
    ensures Kept(s, if pid >= MAX_PROCESSES then s else Code.ScrubProcess(s, pid, drop, s.table[pid]), q, a, b)
  {
    hide ByteIs, Code.ScrubProcess;
    if pid < MAX_PROCESSES {
      ScrubKeepsByte(s, pid, drop, s.table[pid], Translate(s.table, q, a), b);
      ScrubKeepsMap(s, pid, drop, s.table[pid]);
      SameMapKept(s, Code.ScrubProcess(s, pid, drop, s.table[pid]), q, a, b);
    }
  }

  lemma WriteKept(s: State, pid: u8, addr: u32, e: u8, q: u8, a: u32, b: u8)
    requires Shaped(s.cache) && Injective(s.table) && Mapped(s.table, q, a)
    requires if q == pid && SameAddress(addr, a) then e == b else ByteIs(s, Translate(s.table, q, a), b)
    ensures Kept(s, Code.WriteByte(s, pid, addr, e), q, a, b)
  {
    hide ByteIs, Shaped, Injective, Code.WriteByte, Mapped, Translate, SameAddress, SameMap;
    var pa := Translate(s.table, q, a);
    TranslateInBounds(s.table, q, a);
    MappedBySame(s.table, q, a, addr);
    if Mapped(s.table, pid, addr) {
      TranslateInjective(s.table, pid, addr, q, a);
      MappedBySame(s.table, pid, addr, a);
    } else {
      TranslateFault(s.table, pid, addr);
    }
    AccessKeepsMap(s, pid, addr, e);
    WriteKeepsByte(s, pid, addr, e, pa, b);
    SameMapKept(s, Code.WriteByte(s, pid, addr, e), q, a, b);
  }

  // ---------- Runs ----------

  datatype Known = Unknown | Byte(b: u8)

  /** The byte a process may count on at an address after a run: the one it last stored there, or the one cache and
      memory agreed on at the start, if the address has been mapped ever since and no misplaced write-back of
      `invalidateLine` covered the byte. */
  ghost function Held(s: State, ops: seq<Op>, q: u8, a: u32): Known {
    if ops == [] then (if Mapped(s.table, q, a) && AgreesAt(s, q, a) then Byte(Peek(s, q, a)) else Unknown)
    else
      var before, op := Run(s, ops[..|ops| - 1]), ops[|ops| - 1];
      if !Mapped(before.table, q, a) || !Mapped(Step(before, op).table, q, a) then Unknown
      else if Writes(op, q, a) then Byte(op.b)
      else if op.DropLine? && Disturbs(before, op.addr, Translate(before.table, q, a)) then Unknown
      else Held(s, ops[..|ops| - 1], q, a)
  }

  ghost predicate AgreesAt(s: State, q: u8, a: u32)
    requires Mapped(s.table, q, a)
  {
    Agrees(s.cache, s.mem, Translate(s.table, q, a))
  }

  /** The address is mapped and cache and memory agree on its byte. */
  ghost predicate Holding(s: State, q: u8, a: u32, b: u8) {
    Mapped(s.table, q, a) && ByteIs(s, Translate(s.table, q, a), b)
  }

  lemma {:induction false} RunHolds(s: State, ops: seq<Op>, q: u8, a: u32)
    requires AllocSound(s) && AllocatorRun(ops) && Held(s, ops, q, a).Byte?
    ensures Holding(Run(s, ops), q, a, Held(s, ops, q, a).b)
  {
    hide AllocSound, Step, Mapped, Translate, Disturbs, Agrees, Writes;
    if ops == [] {
      StartHolds(s, q, a);
    } else {
      var before, op := ops[..|ops| - 1], ops[|ops| - 1];
      var t, b := Run(s, before), Held(s, ops, q, a).b;
      RunKeepsAllocSound(s, before);
      if !Writes(op, q, a) {
        RunHolds(s, before, q, a);
      } else {
        WritesByte(op, q, a);
      }
      StepKept(t, op, q, a, b);
      KeptParts(t, Step(t, op), q, a, b);
    }
  }

  lemma WritesByte(op: Op, q: u8, a: u32)
    requires Writes(op, q, a)
    ensures op.Write? && !op.DropLine?
  {
  }

  lemma StartHolds(s: State, q: u8, a: u32)
    requires AllocSound(s) && Mapped(s.table, q, a) && AgreesAt(s, q, a)
    ensures Holding(s, q, a, Peek(s, q, a))
  {
  }

  /** Over any run of allocator calls of any processes, what a process last stored at an address is what its cached
      read returns, as long as the page has been mapped ever since and no misplaced write-back covered the byte. */
  lemma StoredBytesPersist(mem: Memory, ops: seq<Op>, q: u8, a: u32)
    requires AllocatorRun(ops)
    ensures var s, held := Run(Initial(mem), ops), Held(Initial(mem), ops, q, a);
      held.Byte? ==> Mapped(s.table, q, a) && Code.CachedByte(s, q, a) == held.b == Peek(s, q, a)
  {
    hide Run, Held, AllocSound, Code.CachedByte, Shaped, Agrees;
    InitialAllocSound(mem);
    if Held(Initial(mem), ops, q, a).Byte? {
      RunHolds(Initial(mem), ops, q, a);
      CachedByteIs(Run(Initial(mem), ops), q, a, Held(Initial(mem), ops, q, a).b);
    }
  }
}
