/** The code's machine against the one without write-backs: the same while cache and memory agree, and alike in all
    but memory and line data even where they do not. */
module Writebacks {
  import opened Words
  import opened Sram
  import opened CacheSets
  import opened PageCacheModel
  import opened PageCacheInvariants
  import opened PageCacheSteps
  import opened PagedAllocator
  import opened PagedViews

  // ---------- Write-backs are redundant ----------

  lemma WriteBackRedundant(line: CacheLine, k: nat, m: Memory)
    requires LineCoherent(line, k, m)
    ensures Code.WriteBack(m, line) == m
  {
    WritebackIsIdentity(m, line.tag);
  }

  lemma RoomRedundant(s: State, pid: u8, addr: u32)
    requires Coherent(s.cache, s.mem)
    ensures Code.RoomMade(s, pid, addr) == s
  {
    if Mapped(s.table, pid, addr) {
      var tag := Translate(s.table, pid, addr) / CACHE_LINE_SIZE;
      var c := s.cache[tag % CACHE_NUM_SETS];
      assert SetCoherent(c, tag % CACHE_NUM_SETS, s.mem);
      if FreeWay(c) == CACHE_NUM_WAYS {
        WriteBackRedundant(c[LruWay(c)], tag % CACHE_NUM_SETS, s.mem);
      }
    }
  }

  /** With an agreeing cache, cached access is that of the machine without write-backs, and stays coherent. */
  lemma AccessRedundant(s: State, pid: u8, addr: u32, b: u8)
    requires Coherent(s.cache, s.mem)
    ensures Code.ReadByte(s, pid, addr) == ReadByte(s, pid, addr)
    ensures Code.CachedByte(s, pid, addr) == CachedByte(s, pid, addr) == Peek(s, pid, addr)
    ensures Code.WriteByte(s, pid, addr, b) == WriteByte(s, pid, addr, b)
    ensures Coherent(ReadByte(s, pid, addr).cache, ReadByte(s, pid, addr).mem)
    ensures Coherent(WriteByte(s, pid, addr, b).cache, WriteByte(s, pid, addr, b).mem)
  {
    RoomRedundant(s, pid, addr);
    CachedByteIsMemory(s, pid, addr);
    ReadEffect(s, pid, addr);
    WriteEffect(s, pid, addr, b);
    hide ReadByte, WriteByte, Coherent, CachedByte, Peek;
  }

  lemma LineRedundant(c: Cache, m: Memory, tag: u32)
    requires Coherent(c, m)
    ensures Code.LineWritten(c, m, tag) == m
  {
    var k := tag % CACHE_NUM_SETS;
    assert SetCoherent(c[k], k, m);
    if Lookup(c[k], tag) < CACHE_NUM_WAYS {
      WriteBackRedundant(c[k][Lookup(c[k], tag)], k, m);
    }
  }

  lemma {:induction false} TagsRedundant(c: Cache, m: Memory, lo: u32, hi: u32, drop: bool)
    requires Coherent(c, m) && lo <= hi
    ensures Code.TagsWritten(c, m, lo, hi, drop) == m
    decreases hi - lo
  {
    hide Coherent, LineDirty, ScrubTags, Code.LineWritten;
    if lo < hi {
      TagsRedundant(c, m, lo, hi - 1, drop);
      ScrubTagsEffect(c, m, lo, hi - 1, drop);
      LineRedundant(ScrubTags(c, lo, hi - 1, drop), m, hi - 1);
    }
  }

  lemma FrameRedundant(s: State, f: FrameIndex, drop: bool)
    requires Coherent(s.cache, s.mem)
    ensures Code.FrameWritten(s, f, drop) == s
  {
    TagsRedundant(s.cache, s.mem, f * LINES_PER_PAGE, f * LINES_PER_PAGE + LINES_PER_PAGE, drop);
  }

  lemma {:induction false} ScrubRedundant(s: State, pid: u8, drop: bool, row: seq<Pte>)
    requires pid < MAX_PROCESSES && |row| <= MAX_PAGES_PER_PROC && Coherent(s.cache, s.mem)
    ensures Code.ScrubProcess(s, pid, drop, row) == ScrubProcess(s, pid, drop, row)
  {
    hide Coherent, Code.FrameWritten, ScrubPage;
    if row != [] {
      var lp := |row| - 1;
      ScrubRedundant(s, pid, drop, row[..lp]);
      ScrubProcessEffect(s, pid, drop, row[..lp]);
      var t := ScrubProcess(s, pid, drop, row[..lp]);
      FrameRedundant(t, t.table[pid][lp].physicalPage, drop);
    }
  }

  lemma {:induction false} LinesRedundant(lines: seq<CacheLine>, k: nat, m: Memory)
    requires forall w | 0 <= w < |lines| && lines[w].valid :: LineCoherent(lines[w], k, m)
    ensures Code.LinesWritten(lines, m) == m
  {
    hide Code.WriteBack;
    if lines != [] {
      LinesRedundant(lines[..|lines| - 1], k, m);
      if lines[|lines| - 1].valid {
        WriteBackRedundant(lines[|lines| - 1], k, m);
      }
    }
  }

  lemma {:induction false} SetsRedundant(sets: seq<CacheSet>, m: Memory)
    requires forall k | 0 <= k < |sets| :: SetCoherent(sets[k], k, m)
    ensures Code.SetsWritten(sets, m) == m
  {
    if sets != [] {
      var k := |sets| - 1;
      SetsRedundant(sets[..k], m);
      assert SetCoherent(sets[k], k, m);
      LinesRedundant(sets[k], k, m);
    }
  }

  /** Flushing an agreeing cache writes back only what memory holds already, so nothing is lost by not flushing:
      afterwards no line is left and memory is as it was. */
  lemma FlushRedundant(s: State)
    requires Coherent(s.cache, s.mem)
    ensures Code.FlushCache(s) == FlushCache(s) && Code.FlushCache(s).mem == s.mem == InvalidateAll(s).mem
    ensures forall tag: u32 :: !Resident(Code.FlushCache(s).cache, tag) && !Resident(InvalidateAll(s).cache, tag)
  {
    SetsRedundant(s.cache, s.mem);
    EmptyingEffect(s);
    hide Resident;
  }

  lemma UnmapKeepsCoherent(s: State, pid: u8, lp: u16)
    requires Coherent(s.cache, s.mem)
    ensures Coherent(UnmapPage(s, pid, lp).cache, UnmapPage(s, pid, lp).mem)
  {
    if ValidPage(s.table, pid, lp) {
      ScrubFrameEffect(s.cache, s.mem, s.table[pid][lp].physicalPage, true);
    }
  }

  lemma {:induction false} UnmapRedundant(s: State, pid: u8, start: nat, n: nat)
    requires Coherent(s.cache, s.mem) && pid < MAX_PROCESSES && start + n <= MAX_PAGES_PER_PROC
    ensures Code.UnmapRun(s, pid, start, n) == UnmapRun(s, pid, start, n)
    decreases n
  {
    hide Coherent, UnmapPage, Code.FrameWritten;
    if n > 0 {
      FrameRedundant(s, s.table[pid][start].physicalPage, true);
      UnmapKeepsCoherent(s, pid, start);
      UnmapRedundant(UnmapPage(s, pid, start), pid, start + 1, n - 1);
    }
  }

  lemma {:induction false} CopyRedundant(s: State, pid: u8, from: u32, to: u32, n: nat)
    requires Coherent(s.cache, s.mem)
    ensures Code.CopyBytes(s, pid, from, to, n) == CopyBytes(s, pid, from, to, n)
    ensures Coherent(CopyBytes(s, pid, from, to, n).cache, CopyBytes(s, pid, from, to, n).mem)
    decreases n
  {
    hide Coherent, At, Peek, ReadByte, WriteByte, Code.ReadByte, Code.WriteByte, Code.CachedByte;
    if n > 0 {
      var t := CopyBytes(s, pid, from, to, n - 1);
      CopyRedundant(s, pid, from, to, n - 1);
      AccessRedundant(t, pid, At(from, n - 1), 0);
      var r := ReadByte(t, pid, At(from, n - 1));
      AccessRedundant(r, pid, At(to, n - 1), Peek(t, pid, At(from, n - 1)));
    }
  }

  lemma {:induction false} ReadArrayRedundant(s: State, pid: u8, addr: u32, len: nat, a: u32)
    requires Coherent(s.cache, s.mem)
    ensures Coherent(Code.ReadArray(s, pid, addr, len).cache, Code.ReadArray(s, pid, addr, len).mem)
    ensures Peek(Code.ReadArray(s, pid, addr, len), pid, a) == Peek(s, pid, a)
    decreases len
  {
    hide Coherent, At, Peek, ReadByte, WriteByte, Code.ReadByte, Code.WriteByte, Code.CachedByte, CachedByte;
    if len > 0 {
      var t := Code.ReadArray(s, pid, addr, len - 1);
      ReadArrayRedundant(s, pid, addr, len - 1, a);
      AccessRedundant(t, pid, At(addr, len - 1), 0);
      ReadKeepsView(t, pid, At(addr, len - 1));
    }
  }

  lemma ReadKeepsView(s: State, pid: u8, addr: u32)
    ensures SameView(s, ReadByte(s, pid, addr))
  {
    ReadEffect(s, pid, addr);
    SameMapSameView(s, ReadByte(s, pid, addr));
  }

  /** With an agreeing cache an array read sees flat memory as it was before the first read. */
  lemma CachedBytesAreMemory(s: State, pid: u8, addr: u32, len: nat)
    requires Coherent(s.cache, s.mem)
    ensures Code.CachedBytes(s, pid, addr, len) == PeekArray(s, pid, addr, len)
  {
    hide Coherent, At, Peek, Code.CachedByte, Code.ReadArray, CachedByte, ReadByte, WriteByte, Code.ReadByte;
    forall i: nat | i < len
      ensures Code.CachedBytes(s, pid, addr, len)[i] == PeekArray(s, pid, addr, len)[i]
    {
      ReadArrayRedundant(s, pid, addr, i, At(addr, i));
      AccessRedundant(Code.ReadArray(s, pid, addr, i), pid, At(addr, i), 0);
    }
  }

  lemma FreeRedundant(s: State, pid: u8, addr: u32)
    requires Coherent(s.cache, s.mem)
    ensures Code.PagedFree(s, pid, addr) == PagedFree(s, pid, addr)
  {
    if Mapped(s.table, pid, addr) {
      UnmapRedundant(s, pid, PageOf(addr), FreedPages(s.table, pid, addr));
    }
  }

  lemma ReallocRedundant(s: State, pid: u8, oldAddr: u32, size: u16)
    requires Coherent(s.cache, s.mem)
    ensures Code.PagedRealloc(s, pid, oldAddr, size) == PagedRealloc(s, pid, oldAddr, size)
  {
    hide Coherent, PagedMalloc, PagedFree, CopyBytes, Code.PagedMalloc, Code.PagedFree, Code.CopyBytes;
    MallocRedundant(s, pid, size);
    FreeRedundant(s, pid, oldAddr);
    if Mapped(s.table, pid, oldAddr) {
      var m, len := PagedMalloc(s, pid, size), FreedPages(s.table, pid, oldAddr) * PAGE_SIZE;
      CopyRedundant(m.0, pid, oldAddr, m.1, len);
      FreeRedundant(CopyBytes(m.0, pid, oldAddr, m.1, len), pid, oldAddr);
    }
  }

  // ---------- Scrubbing and access map nothing ----------

  /** Invalidating or flushing a process maps and unmaps nothing and changes no frame. */
  lemma {:induction false} ScrubKeepsMap(s: State, pid: u8, drop: bool, row: seq<Pte>)
    requires pid < MAX_PROCESSES && |row| <= MAX_PAGES_PER_PROC
    ensures SameMap(s.table, Code.ScrubProcess(s, pid, drop, row).table)
    ensures Code.ScrubProcess(s, pid, drop, row).frames == s.frames
  {
    hide ScrubFrame, Code.TagsWritten;
    if row != [] {
      ScrubKeepsMap(s, pid, drop, row[..|row| - 1]);
    }
  }

  lemma AccessKeepsMap(s: State, pid: u8, addr: u32, b: u8)
    ensures SameMap(s.table, Code.ReadByte(s, pid, addr).table)
    ensures SameMap(s.table, Code.WriteByte(s, pid, addr, b).table)
    ensures SameFrames(s.frames, Code.ReadByte(s, pid, addr).frames)
    ensures SameFrames(s.frames, Code.WriteByte(s, pid, addr, b).frames)
  {
    var t := Code.RoomMade(s, pid, addr);
    ReadEffect(t, pid, addr);
    WriteEffect(t, pid, addr, b);
    hide ReadByte, WriteByte, SameMap, SameFrames, Code.Displaced;
  }

  // ---------- Nothing but data depends on data ----------

  lemma AccessAlike(c: Cache, d: Cache, m: Memory, n: Memory, pa: nat, now: u32)
    requires AlikeCaches(c, d) && pa < SRAM_SIZE
    ensures AlikeCaches(AccessCache(c, m, pa, now), AccessCache(d, n, pa, now))
  {
    var tag := pa / CACHE_LINE_SIZE;
    var k := tag % CACHE_NUM_SETS;
    AccessDirectory(c[k], d[k], tag, now, Line(m, tag), Line(n, tag));
    hide Access, SameDirectory;
  }

  lemma StoreAlike(c: Cache, d: Cache, m: Memory, n: Memory, pa: nat, now: u32, b: u8, e: u8)
    requires AlikeCaches(c, d) && pa < SRAM_SIZE
    ensures AlikeCaches(StoreCache(c, m, pa, now, b), StoreCache(d, n, pa, now, e))
  {
    var tag := pa / CACHE_LINE_SIZE;
    var k := tag % CACHE_NUM_SETS;
    StoreDirectory(c[k], d[k], tag, now, Line(m, tag), Line(n, tag), pa % CACHE_LINE_SIZE, b, e);
    hide Store, SameDirectory;
  }

  lemma ReadAlike(s: State, r: State, pid: u8, addr: u32)
    requires Alike(s, r)
    ensures Alike(Code.ReadByte(s, pid, addr), ReadByte(r, pid, addr))
  {
    if Mapped(s.table, pid, addr) {
      var pa, m := Translate(s.table, pid, addr), Code.RoomMade(s, pid, addr).mem;
      AccessAlike(s.cache, r.cache, m, r.mem, pa, Tick(s.clock));
      hide AccessCache, AlikeCaches, Tick, Translate;
    }
  }

  lemma WriteAlike(s: State, r: State, pid: u8, addr: u32, b: u8, e: u8)
    requires Alike(s, r)
    ensures Alike(Code.WriteByte(s, pid, addr, b), WriteByte(r, pid, addr, e))
  {
    if Mapped(s.table, pid, addr) {
      var pa, m := Translate(s.table, pid, addr), Code.RoomMade(s, pid, addr).mem;
      StoreAlike(s.cache, r.cache, m, r.mem, pa, Tick(s.clock), b, e);
      hide StoreCache, AlikeCaches, Tick, Translate;
    }
  }

  lemma {:induction false} ScrubTagsAlike(c: Cache, d: Cache, lo: u32, hi: u32, drop: bool)
    requires AlikeCaches(c, d) && lo <= hi
    ensures AlikeCaches(ScrubTags(c, lo, hi, drop), ScrubTags(d, lo, hi, drop))
    decreases hi - lo
  {
    hide ScrubSet, SameDirectory;
    if lo < hi {
      var k := (hi - 1) % CACHE_NUM_SETS;
      ScrubTagsAlike(c, d, lo, hi - 1, drop);
      ScrubDirectory(ScrubTags(c, lo, hi - 1, drop)[k], ScrubTags(d, lo, hi - 1, drop)[k], hi - 1, drop);
    }
  }

  lemma ScrubFrameAlike(c: Cache, d: Cache, f: FrameIndex, drop: bool)
    requires AlikeCaches(c, d)
    ensures AlikeCaches(ScrubFrame(c, f, drop), ScrubFrame(d, f, drop))
  {
    ScrubTagsAlike(c, d, f * LINES_PER_PAGE, f * LINES_PER_PAGE + LINES_PER_PAGE, drop);
  }

  lemma {:induction false} ScrubProcessAlike(s: State, r: State, pid: u8, drop: bool, row: seq<Pte>)
    requires Alike(s, r) && pid < MAX_PROCESSES && |row| <= MAX_PAGES_PER_PROC
    ensures Alike(Code.ScrubProcess(s, pid, drop, row), ScrubProcess(r, pid, drop, row))
  {
    hide AlikeCaches, ScrubFrame, Code.TagsWritten;
    if row != [] {
      var lp := |row| - 1;
      ScrubProcessAlike(s, r, pid, drop, row[..lp]);
      var t, u := Code.ScrubProcess(s, pid, drop, row[..lp]), ScrubProcess(r, pid, drop, row[..lp]);
      ScrubFrameAlike(t.cache, u.cache, t.table[pid][lp].physicalPage, drop);
    }
  }

  lemma {:induction false} UnmapRunAlike(s: State, r: State, pid: u8, start: nat, n: nat)
    requires Alike(s, r) && pid < MAX_PROCESSES && start + n <= MAX_PAGES_PER_PROC
    ensures Alike(Code.UnmapRun(s, pid, start, n), UnmapRun(r, pid, start, n))
    decreases n
  {
    hide AlikeCaches, Code.UnmapPage, UnmapPage;
    if n > 0 {
      UnmapAlike(s, r, pid, start);
      UnmapRunAlike(Code.UnmapPage(s, pid, start), UnmapPage(r, pid, start), pid, start + 1, n - 1);
    }
  }

  lemma UnmapAlike(s: State, r: State, pid: u8, lp: u16)
    requires Alike(s, r)
    ensures Alike(Code.UnmapPage(s, pid, lp), UnmapPage(r, pid, lp))
  {
    hide AlikeCaches, ScrubFrame, Code.TagsWritten, ReleaseFrame;
    if ValidPage(s.table, pid, lp) {
      ScrubFrameAlike(s.cache, r.cache, s.table[pid][lp].physicalPage, true);
    }
  }

  lemma FlushAlike(s: State, r: State)
    requires Alike(s, r)
    ensures Alike(Code.FlushCache(s), FlushCache(r)) && Alike(InvalidateAll(s), InvalidateAll(r))
  {
    hide Code.SetsWritten;
    forall k | 0 <= k < CACHE_NUM_SETS
      ensures SameDirectory(FlushSet(s.cache[k]), FlushSet(r.cache[k]))
      ensures SameDirectory(InvalidateSet(s.cache[k]), InvalidateSet(r.cache[k]))
    {
      assert SameDirectory(s.cache[k], r.cache[k]);
    }
    hide FlushSet, InvalidateSet, SameDirectory;
  }

  /** Dropping a line has the same effect, up to data, as dropping it by the address it starts at. */
  lemma DropLineAlike(s: State, r: State, addr: u32)
    requires Alike(s, r)
    ensures Alike(InvalidateLine(s, addr), InvalidateLine(r, addr - addr % CACHE_LINE_SIZE))
  {
    var tag := addr / CACHE_LINE_SIZE;
    ScrubDirectory(s.cache[tag % CACHE_NUM_SETS], r.cache[tag % CACHE_NUM_SETS], tag, true);
    hide ScrubSet, SameDirectory, Lookup;
  }

  lemma TakeAlike(s: State, r: State, pid: u8)
    requires SameTables(s, r)
    ensures SameTables(TakeFrame(s, pid), TakeFrame(r, pid))
    ensures TakeFrame(s, pid).cache == s.cache && TakeFrame(r, pid).cache == r.cache
  {
  }

  lemma MapAlike(s: State, r: State, pid: u8, lp: u16, f: u16)
    requires SameTables(s, r)
    ensures SameTables(MapPage(s, pid, lp, f), MapPage(r, pid, lp, f))
    ensures MapPage(s, pid, lp, f).cache == s.cache && MapPage(r, pid, lp, f).cache == r.cache
  {
  }

  lemma {:induction false} MapRunAlike(s: State, r: State, pid: u8, start: nat, n: nat)
    requires SameTables(s, r) && pid < MAX_PROCESSES && start + n <= MAX_PAGES_PER_PROC
    ensures SameTables(MapRun(s, pid, start, n).0, MapRun(r, pid, start, n).0)
    ensures MapRun(r, pid, start, n).1 == MapRun(s, pid, start, n).1
    decreases n
  {
    hide MapRun, HasFree, SameTables;
    HasFreeAlike(s, r);
    if n == 0 || !HasFree(s) {
      MapRunStop(s, pid, start, n);
      MapRunStop(r, pid, start, n);
    } else {
      var t, u := MapOneAlike(s, r, pid, start, n);
      MapRunAlike(t, u, pid, start + 1, n - 1);
    }
  }

  lemma HasFreeAlike(s: State, r: State)
    requires SameTables(s, r)
    ensures HasFree(r) == HasFree(s)
  {
  }

  lemma MapOneAlike(s: State, r: State, pid: u8, start: nat, n: nat) returns (t: State, u: State)
    requires SameTables(s, r) && pid < MAX_PROCESSES && n > 0 && start + n <= MAX_PAGES_PER_PROC
    requires HasFree(s)
    ensures SameTables(t, u)
    ensures MapRun(s, pid, start, n).0 == MapRun(t, pid, start + 1, n - 1).0
    ensures MapRun(s, pid, start, n).1 == MapRun(t, pid, start + 1, n - 1).1 + 1
    ensures MapRun(r, pid, start, n).0 == MapRun(u, pid, start + 1, n - 1).0
    ensures MapRun(r, pid, start, n).1 == MapRun(u, pid, start + 1, n - 1).1 + 1
  {
    TakeAlike(s, r, pid);
    MapAlike(TakeFrame(s, pid), TakeFrame(r, pid), pid, start, FirstFree(s.frames));
    hide TakeFrame, MapPage;
    t := MapPage(TakeFrame(s, pid), pid, start, FirstFree(s.frames));
    u := MapPage(TakeFrame(r, pid), pid, start, FirstFree(r.frames));
  }

  /** Allocation depends on frames, page table and clock alone. */
  lemma MallocAlike(s: State, r: State, pid: u8, size: u16)
    requires SameTables(s, r)
    ensures SameTables(PagedMalloc(s, pid, size).0, PagedMalloc(r, pid, size).0)
    ensures PagedMalloc(r, pid, size).1 == PagedMalloc(s, pid, size).1
  {
    if Requestable(pid, size) && Place(s.table, pid, size) < MAX_PAGES_PER_PROC {
      var start, n := Place(s.table, pid, size), PagesFor(size);
      MapRunAlike(s, r, pid, start, n);
      hide MapRun, UnmapRun;
      var m := MapRun(s, pid, start, n);
      UnmapRunTables(m.0, m.0, pid, start, m.1);
      UnmapRunTables(m.0, MapRun(r, pid, start, n).0, pid, start, m.1);
    }
  }

  lemma FreeAlike(s: State, r: State, pid: u8, addr: u32)
    requires Alike(s, r)
    ensures Alike(Code.PagedFree(s, pid, addr), PagedFree(r, pid, addr))
  {
    if addr != 0 && Mapped(s.table, pid, addr) {
      UnmapRunAlike(s, r, pid, PageOf(addr), FreedPages(s.table, pid, addr));
    }
  }

  lemma {:induction false} CopyAlike(s: State, r: State, pid: u8, from: u32, to: u32, n: nat)
    requires Alike(s, r)
    ensures Alike(Code.CopyBytes(s, pid, from, to, n), CopyBytes(r, pid, from, to, n))
    decreases n
  {
    hide Alike, At, Peek, ReadByte, WriteByte, Code.ReadByte, Code.WriteByte, Code.CachedByte;
    if n > 0 {
      var t, u := Code.CopyBytes(s, pid, from, to, n - 1), CopyBytes(r, pid, from, to, n - 1);
      CopyAlike(s, r, pid, from, to, n - 1);
      ReadAlike(t, u, pid, At(from, n - 1));
      WriteAlike(Code.ReadByte(t, pid, At(from, n - 1)), ReadByte(u, pid, At(from, n - 1)), pid, At(to, n - 1),
                 Code.CachedByte(t, pid, At(from, n - 1)), Peek(u, pid, At(from, n - 1)));
    }
  }

  lemma ReallocAlike(s: State, r: State, pid: u8, oldAddr: u32, size: u16)
    requires Alike(s, r)
    ensures Alike(Code.PagedRealloc(s, pid, oldAddr, size).0, PagedRealloc(r, pid, oldAddr, size).0)
    ensures PagedRealloc(r, pid, oldAddr, size).1 == Code.PagedRealloc(s, pid, oldAddr, size).1
  {
    hide AlikeCaches, PagedMalloc, PagedFree, CopyBytes, Code.PagedMalloc, Code.PagedFree, Code.CopyBytes;
    MallocRedundant(s, pid, size);
    MallocRedundant(r, pid, size);
    MallocAlike(s, r, pid, size);
    FreeAlike(s, r, pid, oldAddr);
    if Mapped(s.table, pid, oldAddr) {
      var m, n := PagedMalloc(s, pid, size), PagedMalloc(r, pid, size);
      var len := FreedPages(s.table, pid, oldAddr) * PAGE_SIZE;
      CopyAlike(m.0, n.0, pid, oldAddr, m.1, len);
      FreeAlike(Code.CopyBytes(m.0, pid, oldAddr, m.1, len), CopyBytes(n.0, pid, oldAddr, m.1, len), pid, oldAddr);
    }
  }

  // ---------- What unmapping and scrubbing leave, whatever the data ----------

  lemma AlikeResident(c: Cache, d: Cache, tag: u32)
    requires AlikeCaches(c, d)
    ensures Resident(d, tag) <==> Resident(c, tag)
  {
    DirectoryDecides(c[tag % CACHE_NUM_SETS], d[tag % CACHE_NUM_SETS], tag);
  }

  /** Unmapping leaves no dirty line of the page's frame cached, although a clean entry skips the scan of its lines, and
      every dirty line left belongs to a page marked dirty. */
  lemma UnmapLeavesNoneDirty(s: State, pid: u8, lp: u16)
    requires Shaped(s.cache) && Injective(s.table) && DirtyTracked(s.cache, s.table) && ValidPage(s.table, pid, lp)
    ensures DirtyTracked(Code.UnmapPage(s, pid, lp).cache, Code.UnmapPage(s, pid, lp).table)
    ensures forall tag: u32 | tag / LINES_PER_PAGE == s.table[pid][lp].physicalPage ::
      !LineDirty(Code.UnmapPage(s, pid, lp).cache, tag)
  {
    var r := Repaired(s);
    var t, u := Code.UnmapPage(s, pid, lp), UnmapPage(r, pid, lp);
    RepairedCoherent(s);
    hide Shaped, Injective, LineDirty, Repaired, UnmapPage, Code.UnmapPage, AlikeCaches, Coherent, DirtyPage;
    UnmapAlike(s, r, pid, lp);
    forall tag: u32
      ensures LineDirty(r.cache, tag) <==> LineDirty(s.cache, tag)
      ensures LineDirty(u.cache, tag) <==> LineDirty(t.cache, tag)
    {
      AlikeDirty(s.cache, r.cache, tag);
      AlikeDirty(t.cache, u.cache, tag);
    }
    UnmapTracked(r, pid, lp);
  }

  /** Invalidating a process drops exactly the lines of its mapped pages; flushing it keeps every line but leaves none
      of its pages, nor any line of them, dirty. */
  lemma ScrubClears(s: State, pid: u8, drop: bool)
    requires Shaped(s.cache) && pid < MAX_PROCESSES
    ensures var r, row := Code.ScrubProcess(s, pid, drop, s.table[pid]), s.table[pid];
      && (forall u: u32 ::
            Resident(r.cache, u) <==> Resident(s.cache, u) && !(drop && OnPages(row, MAX_PAGES_PER_PROC, u)))
      && (forall u: u32 | OnPages(row, MAX_PAGES_PER_PROC, u) :: !LineDirty(r.cache, u))
      && (!drop ==> forall l | 0 <= l < MAX_PAGES_PER_PROC && row[l].valid :: !r.table[pid][l].dirty)
  {
    var q := Repaired(s);
    RepairedCoherent(s);
    hide Shaped, LineDirty, Resident, OnPages, Repaired, ScrubProcess, Code.ScrubProcess, AlikeCaches, Coherent;
    ScrubProcessAlike(s, q, pid, drop, s.table[pid]);
    ScrubProcessClears(q, pid, drop, s.table[pid]);
    var t, u := Code.ScrubProcess(s, pid, drop, s.table[pid]), ScrubProcess(q, pid, drop, s.table[pid]);
    forall tag: u32
      ensures Resident(q.cache, tag) <==> Resident(s.cache, tag)
      ensures Resident(u.cache, tag) <==> Resident(t.cache, tag)
      ensures LineDirty(u.cache, tag) <==> LineDirty(t.cache, tag)
    {
      AlikeResident(s.cache, q.cache, tag);
      AlikeResident(t.cache, u.cache, tag);
      AlikeDirty(t.cache, u.cache, tag);
    }
  }
}
