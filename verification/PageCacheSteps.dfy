/** The building blocks of every call: cached access, scrubbing, frames and page-table entries. */
module PageCacheSteps {
  import opened Words
  import opened Sram
  import opened CacheSets
  import opened PageCacheModel
  import opened PageCacheInvariants

  // ---------- Cached access ----------

  lemma AccessKeepsCache(c: Cache, m: Memory, pa: nat, now: u32)
    requires pa < SRAM_SIZE && Coherent(c, m)
    ensures Coherent(AccessCache(c, m, pa, now), m)
    ensures forall tag: u32 :: LineDirty(AccessCache(c, m, pa, now), tag)
                          ==> LineDirty(c, tag)
  {
    var t := pa / CACHE_LINE_SIZE;
    AccessKeepsCoherent(c[t % CACHE_NUM_SETS], t % CACHE_NUM_SETS, m, t, now);
    forall tag: u32 | LineDirty(AccessCache(c, m, pa, now), tag)
      ensures LineDirty(c, tag)
    {
      var w :| 0 <= w < CACHE_NUM_WAYS
            && Holds(AccessCache(c, m, pa, now)[tag % CACHE_NUM_SETS][w], tag)
            && AccessCache(c, m, pa, now)[tag % CACHE_NUM_SETS][w].dirty;
      assert Holds(c[tag % CACHE_NUM_SETS][w], tag) && c[tag % CACHE_NUM_SETS][w].dirty;
    }
  }

  lemma StoreKeepsCache(c: Cache, m: Memory, pa: nat, now: u32, b: u8)
    requires pa < SRAM_SIZE && Coherent(c, m)
    ensures Coherent(StoreCache(c, m, pa, now, b), m[pa := b])
    ensures forall tag: u32 :: LineDirty(StoreCache(c, m, pa, now, b), tag)
                          ==> tag == pa / CACHE_LINE_SIZE || LineDirty(c, tag)
  {
    var t, c' := pa / CACHE_LINE_SIZE, StoreCache(c, m, pa, now, b);
    forall k | 0 <= k < CACHE_NUM_SETS
      ensures SetCoherent(c'[k], k, m[pa := b])
    {
      if k == t % CACHE_NUM_SETS {
        StoreKeepsCoherent(c[k], k, m, pa, now, b);
      } else {
        ForeignWriteKeepsCoherent(c[k], k, m, pa, b);
      }
    }
    forall tag: u32 | LineDirty(c', tag) && tag != t
      ensures LineDirty(c, tag)
    {
      var k := tag % CACHE_NUM_SETS;
      var w :| 0 <= w < CACHE_NUM_WAYS && Holds(c'[k][w], tag) && c'[k][w].dirty;
      assert Holds(c[k][w], tag) && c[k][w].dirty;
    }
  }

  /** Dirty bits of page-table entries are only ever set. */
  ghost predicate DirtyGrows(t: PageTable, u: PageTable) {
    forall p, l | 0 <= p < MAX_PROCESSES && 0 <= l < MAX_PAGES_PER_PROC :: t[p][l].dirty ==> u[p][l].dirty
  }

  lemma DirtyGrowsKeeps(t: PageTable, u: PageTable, f: nat)
    requires SameMap(t, u) && DirtyGrows(t, u) && DirtyPage(t, f)
    ensures DirtyPage(u, f)
  {
    var p, l :| 0 <= p < MAX_PROCESSES && 0 <= l < MAX_PAGES_PER_PROC
             && t[p][l].valid && t[p][l].dirty && t[p][l].physicalPage == f;
    assert u[p][l].valid && u[p][l].dirty && u[p][l].physicalPage == f;
  }

  lemma TouchEffect(s: State, pid: u8, lp: u16)
    ensures var r := Touch(s, pid, lp);
      r.cache == s.cache && r.mem == s.mem
      && SameMap(s.table, r.table) && DirtyGrows(s.table, r.table) && SameFrames(s.frames, r.frames)
  {
  }

  lemma ReadEffect(s: State, pid: u8, addr: u32)
    ensures var r := ReadByte(s, pid, addr);
      r.mem == s.mem && SameMap(s.table, r.table) && DirtyGrows(s.table, r.table) && SameFrames(s.frames, r.frames)
    ensures Coherent(s.cache, s.mem) ==> Coherent(ReadByte(s, pid, addr).cache, s.mem)
    ensures Coherent(s.cache, s.mem) && DirtyTracked(s.cache, s.table)
        ==> DirtyTracked(ReadByte(s, pid, addr).cache, ReadByte(s, pid, addr).table)
  {
    if Mapped(s.table, pid, addr) {
      var pa := Translate(s.table, pid, addr);
      var t := s.(cache := AccessCache(s.cache, s.mem, pa, Tick(s.clock)), clock := Tick(s.clock));
      TouchEffect(t, pid, PageOf(addr));
      if Coherent(s.cache, s.mem) {
        AccessKeepsCache(s.cache, s.mem, pa, Tick(s.clock));
        TrackedAfter(s, ReadByte(s, pid, addr));
      }
    }
  }

  /** A coherent cache serves the byte that memory holds. */
  lemma CachedByteIsMemory(s: State, pid: u8, addr: u32)
    requires Coherent(s.cache, s.mem)
    ensures CachedByte(s, pid, addr) == Peek(s, pid, addr)
  {
    if Mapped(s.table, pid, addr) {
      var pa := Translate(s.table, pid, addr);
      var tag := pa / CACHE_LINE_SIZE;
      AccessKeepsCoherent(s.cache[tag % CACHE_NUM_SETS], tag % CACHE_NUM_SETS, s.mem, tag, Tick(s.clock));
    }
  }

  lemma TrackedAfter(s: State, r: State)
    requires SameMap(s.table, r.table) && DirtyGrows(s.table, r.table)
    requires forall tag: u32 | LineDirty(r.cache, tag) ::
      LineDirty(s.cache, tag) || DirtyPage(r.table, tag / LINES_PER_PAGE)
    ensures DirtyTracked(s.cache, s.table) ==> DirtyTracked(r.cache, r.table)
  {
    if DirtyTracked(s.cache, s.table) {
      forall tag: u32 | LineDirty(r.cache, tag)
        ensures DirtyPage(r.table, tag / LINES_PER_PAGE)
      {
        if LineDirty(s.cache, tag) {
          DirtyGrowsKeeps(s.table, r.table, tag / LINES_PER_PAGE);
        }
      }
    }
  }

  lemma WriteEffect(s: State, pid: u8, addr: u32, b: u8)
    ensures var r := WriteByte(s, pid, addr, b);
      SameMap(s.table, r.table) && DirtyGrows(s.table, r.table) && SameFrames(s.frames, r.frames)
      && r.mem == if Mapped(s.table, pid, addr) then s.mem[Translate(s.table, pid, addr) := b] else s.mem
    ensures Coherent(s.cache, s.mem)
        ==> Coherent(WriteByte(s, pid, addr, b).cache, WriteByte(s, pid, addr, b).mem)
    ensures Coherent(s.cache, s.mem) && DirtyTracked(s.cache, s.table)
        ==> DirtyTracked(WriteByte(s, pid, addr, b).cache, WriteByte(s, pid, addr, b).table)
  {
    if Mapped(s.table, pid, addr) {
      var pa, lp, r := Translate(s.table, pid, addr), PageOf(addr), WriteByte(s, pid, addr, b);
      var t := s.(cache := StoreCache(s.cache, s.mem, pa, Tick(s.clock), b), mem := s.mem[pa := b],
                  table := SetPte(s.table, pid, lp, s.table[pid][lp].(dirty := true)), clock := Tick(s.clock));
      TouchEffect(t, pid, lp);
      if Coherent(s.cache, s.mem) {
        StoreKeepsCache(s.cache, s.mem, pa, Tick(s.clock), b);
        assert DirtyPage(r.table, pa / CACHE_LINE_SIZE / LINES_PER_PAGE) by {
          assert r.table[pid][lp].valid && r.table[pid][lp].dirty;
          assert r.table[pid][lp].physicalPage == pa / PAGE_SIZE;
        }
        TrackedAfter(s, r);
      }
    }
  }

  // ---------- Scrubbing ----------

  /** Scrubbing changes no memory, invents no dirty line, and leaves lines of other tags as they are. */
  lemma ScrubLineEffect(c: Cache, m: Memory, tag: u32, drop: bool)
    requires Coherent(c, m)
    ensures Coherent(ScrubLine(c, tag, drop), m)
    ensures forall u: u32 :: LineDirty(ScrubLine(c, tag, drop), u)
                        <==> LineDirty(c, u) && u != tag
  {
    var k := tag % CACHE_NUM_SETS;
    ScrubKeepsCoherent(c[k], k, m, tag, drop);
    var c' := ScrubLine(c, tag, drop);
    forall u: u32
      ensures LineDirty(c', u) <==> LineDirty(c, u) && u != tag
    {
      ScrubSetDirty(c[k], k, m, tag, drop, u);
    }
  }

  lemma ScrubSetDirty(c: CacheSet, k: nat, m: Memory, tag: u32, drop: bool, u: u32)
    requires SetCoherent(c, k, m)
    ensures HasDirty(ScrubSet(c, tag, drop), u) <==> HasDirty(c, u) && u != tag
  {
    var c' := ScrubSet(c, tag, drop);
    if HasDirty(c', u) {
      var w :| 0 <= w < CACHE_NUM_WAYS && Holds(c'[w], u) && c'[w].dirty;
      assert Holds(c[w], u) && c[w].dirty;
    }
    if HasDirty(c, u) && u != tag {
      var w :| 0 <= w < CACHE_NUM_WAYS && Holds(c[w], u) && c[w].dirty;
      assert Holds(c'[w], u) && c'[w].dirty;
    }
  }

  /** Scrubbing a range of tags makes exactly those lines clean or absent. */
  lemma {:induction false} ScrubTagsEffect(c: Cache, m: Memory, lo: u32, hi: u32, drop: bool)
    requires Coherent(c, m) && lo <= hi
    ensures Coherent(ScrubTags(c, lo, hi, drop), m)
    ensures forall u: u32 :: LineDirty(ScrubTags(c, lo, hi, drop), u) <==> LineDirty(c, u) && !(lo <= u < hi)
    decreases hi - lo
  {
    hide Coherent, LineDirty, ScrubLine;
    if lo < hi {
      var c' := ScrubTags(c, lo, hi - 1, drop);
      ScrubTagsEffect(c, m, lo, hi - 1, drop);
      ScrubLineEffect(c', m, hi - 1, drop);
    }
  }

  lemma ScrubFrameEffect(c: Cache, m: Memory, f: FrameIndex, drop: bool)
    requires Coherent(c, m)
    ensures Coherent(ScrubFrame(c, f, drop), m)
    ensures forall u: u32 :: LineDirty(ScrubFrame(c, f, drop), u) <==> LineDirty(c, u) && u / LINES_PER_PAGE != f
  {
    ScrubTagsEffect(c, m, f * LINES_PER_PAGE, f * LINES_PER_PAGE + LINES_PER_PAGE, drop);
  }

  lemma ScrubPageEffect(s: State, pid: u8, lp: nat, drop: bool)
    requires pid < MAX_PROCESSES && lp < MAX_PAGES_PER_PROC && s.table[pid][lp].valid && Coherent(s.cache, s.mem)
    ensures var r := ScrubPage(s, pid, lp, drop);
      r.mem == s.mem && r.frames == s.frames && SameMap(s.table, r.table) && Coherent(r.cache, r.mem)
    ensures Injective(s.table) && DirtyTracked(s.cache, s.table)
        ==> DirtyTracked(ScrubPage(s, pid, lp, drop).cache, ScrubPage(s, pid, lp, drop).table)
  {
    var r, f := ScrubPage(s, pid, lp, drop), s.table[pid][lp].physicalPage;
    ScrubFrameEffect(s.cache, s.mem, f, drop);
    if Injective(s.table) && DirtyTracked(s.cache, s.table) {
      forall tag: u32 | LineDirty(r.cache, tag)
        ensures DirtyPage(r.table, tag / LINES_PER_PAGE)
      {
        var p, l :| 0 <= p < MAX_PROCESSES && 0 <= l < MAX_PAGES_PER_PROC
          && s.table[p][l].valid && s.table[p][l].dirty && s.table[p][l].physicalPage == tag / LINES_PER_PAGE;
        assert r.table[p][l] == s.table[p][l];
      }
    }
  }

  lemma {:induction false} ScrubProcessEffect(s: State, pid: u8, drop: bool, row: seq<Pte>)
    requires pid < MAX_PROCESSES && |row| <= MAX_PAGES_PER_PROC && Coherent(s.cache, s.mem)
    ensures var r := ScrubProcess(s, pid, drop, row);
      r.mem == s.mem && r.frames == s.frames && SameMap(s.table, r.table) && Coherent(r.cache, r.mem)
    ensures Injective(s.table) && DirtyTracked(s.cache, s.table)
        ==> DirtyTracked(ScrubProcess(s, pid, drop, row).cache, ScrubProcess(s, pid, drop, row).table)
  {
    if row != [] {
      var lp := |row| - 1;
      var t := ScrubProcess(s, pid, drop, row[..lp]);
      ScrubProcessEffect(s, pid, drop, row[..lp]);
      SameMapKeeps(s, t);
      if t.table[pid][lp].valid {
        ScrubPageEffect(t, pid, lp, drop);
      }
    }
  }

  /** Emptying the cache, with or without write-backs, loses nothing: no line is left and memory is as it was. */
  lemma EmptyingEffect(s: State)
    ensures FlushCache(s).mem == s.mem && InvalidateAll(s).mem == s.mem
    ensures Coherent(FlushCache(s).cache, s.mem) && Coherent(InvalidateAll(s).cache, s.mem)
    ensures forall tag: u32 :: !Resident(FlushCache(s).cache, tag) && !Resident(InvalidateAll(s).cache, tag)
    ensures forall tag: u32 :: !LineDirty(FlushCache(s).cache, tag) && !LineDirty(InvalidateAll(s).cache, tag)
  {
  }

  // ---------- What scrubbing removes ----------

  /** Some way holds the line. */
  predicate Resident(c: Cache, tag: u32) {
    Lookup(c[tag % CACHE_NUM_SETS], tag) < CACHE_NUM_WAYS
  }

  lemma ScrubLineResidency(c: Cache, m: Memory, tag: u32, drop: bool)
    requires Coherent(c, m)
    ensures forall u: u32 :: Resident(ScrubLine(c, tag, drop), u) <==> Resident(c, u) && !(drop && u == tag)
  {
    var k := tag % CACHE_NUM_SETS;
    forall u: u32
      ensures Resident(ScrubLine(c, tag, drop), u) <==> Resident(c, u) && !(drop && u == tag)
    {
      if u % CACHE_NUM_SETS == k {
        ScrubSetResidency(c[k], k, m, tag, drop, u);
      }
    }
  }

  lemma ScrubSetResidency(c: CacheSet, k: nat, m: Memory, tag: u32, drop: bool, u: u32)
    requires SetCoherent(c, k, m)
    ensures Lookup(ScrubSet(c, tag, drop), u) < CACHE_NUM_WAYS
       <==> Lookup(c, u) < CACHE_NUM_WAYS && !(drop && u == tag)
  {
    var c', w, v := ScrubSet(c, tag, drop), Lookup(c, u), Lookup(ScrubSet(c, tag, drop), u);
    if w < CACHE_NUM_WAYS && !(drop && u == tag) {
      assert Holds(c'[w], u);
    }
    if v < CACHE_NUM_WAYS {
      assert Holds(c[v], u);
    }
  }

  /** Dropping a range of tags removes exactly those lines from the cache; cleaning removes none. */
  lemma {:induction false} ScrubTagsResidency(c: Cache, m: Memory, lo: u32, hi: u32, drop: bool)
    requires Coherent(c, m) && lo <= hi
    ensures forall u: u32 :: Resident(ScrubTags(c, lo, hi, drop), u) <==> Resident(c, u) && !(drop && lo <= u < hi)
    decreases hi - lo
  {
    hide Coherent, Resident, ScrubLine;
    if lo < hi {
      ScrubTagsEffect(c, m, lo, hi - 1, drop);
      ScrubTagsResidency(c, m, lo, hi - 1, drop);
      ScrubLineResidency(ScrubTags(c, lo, hi - 1, drop), m, hi - 1, drop);
    }
  }

  lemma ScrubFrameResidency(c: Cache, m: Memory, f: FrameIndex, drop: bool)
    requires Coherent(c, m)
    ensures forall u: u32 ::
      Resident(ScrubFrame(c, f, drop), u) <==> Resident(c, u) && !(drop && u / LINES_PER_PAGE == f)
  {
    ScrubTagsResidency(c, m, f * LINES_PER_PAGE, f * LINES_PER_PAGE + LINES_PER_PAGE, drop);
    hide Resident;
  }

  /** The line is one of a page that the process maps among its first n. */
  predicate OnPages(row: PageRow, n: nat, u: u32)
    requires n <= MAX_PAGES_PER_PROC
  {
    exists l | 0 <= l < n :: row[l].valid && row[l].physicalPage == u / LINES_PER_PAGE
  }

  /** Invalidating a process drops exactly the lines of its mapped pages; flushing it keeps every line but leaves none
      of its pages, nor any line of them, dirty. */
  lemma {:induction false} ScrubProcessClears(s: State, pid: u8, drop: bool, row: seq<Pte>)
    requires pid < MAX_PROCESSES && Coherent(s.cache, s.mem) && row <= s.table[pid]
    ensures forall u: u32 ::
      Resident(ScrubProcess(s, pid, drop, row).cache, u)
      <==> Resident(s.cache, u) && !(drop && OnPages(s.table[pid], |row|, u))
    ensures forall u: u32 | OnPages(s.table[pid], |row|, u) :: !LineDirty(ScrubProcess(s, pid, drop, row).cache, u)
    ensures !drop ==> forall l | 0 <= l < |row| && row[l].valid :: !ScrubProcess(s, pid, drop, row).table[pid][l].dirty
  {
    if row != [] {
      var lp := |row| - 1;
      var t := ScrubProcess(s, pid, drop, row[..lp]);
      ScrubProcessClears(s, pid, drop, row[..lp]);
      ScrubProcessEffect(s, pid, drop, row[..lp]);
      assert forall u: u32 ::
          OnPages(s.table[pid], |row|, u)
          <==> OnPages(s.table[pid], lp, u) || (row[lp].valid && row[lp].physicalPage == u / LINES_PER_PAGE);
      hide Coherent, Resident, OnPages, LineDirty, ScrubFrame;
      if t.table[pid][lp].valid {
        ScrubFrameResidency(t.cache, t.mem, t.table[pid][lp].physicalPage, drop);
        ScrubFrameEffect(t.cache, t.mem, t.table[pid][lp].physicalPage, drop);
      }
    }
  }

  // ---------- Frames and entries ----------

  lemma TakeKeepsInv(s: State, pid: u8)
    requires Inv(s)
    ensures Inv(TakeFrame(s, pid))
  {
    var r := TakeFrame(s, pid);
    forall f: FrameIndex
      ensures FrameCounted(r.frames[f], Mappings(r.table, f))
    {
      assert FrameCounted(s.frames[f], Mappings(s.table, f));
    }
  }

  lemma TakeExact(s: State, pid: u8)
    requires Exact(s.frames, s.table)
    ensures Exact(TakeFrame(s, pid).frames, TakeFrame(s, pid).table)
  {
    var r := TakeFrame(s, pid);
    forall f: FrameIndex
      ensures FrameExact(r.frames[f], Mappings(r.table, f))
    {
      assert FrameExact(s.frames[f], Mappings(s.table, f));
    }
  }

  lemma TakeKeepsAllocInv(s: State, pid: u8)
    requires AllocInv(s)
    ensures AllocInv(TakeFrame(s, pid))
  {
    TakeExact(s, pid);
  }

  lemma ReleaseKeepsInv(s: State, f: u16)
    requires Inv(s)
    ensures Inv(FreePhysicalPage(s, f))
  {
    var r := FreePhysicalPage(s, f);
    forall g: FrameIndex
      ensures FrameCounted(r.frames[g], Mappings(r.table, g))
    {
      assert FrameCounted(s.frames[g], Mappings(s.table, g));
    }
  }

  lemma MapKeepsInv(s: State, pid: u8, lp: u16, f: u16)
    requires Inv(s)
    ensures Inv(MapPage(s, pid, lp, f))
  {
    if Mappable(pid, lp, f) {
      var r := MapPage(s, pid, lp, f);
      forall g: FrameIndex
        ensures FrameCounted(r.frames[g], Mappings(r.table, g))
      {
        MapCounted(s, pid, lp, f, g);
      }
    }
  }

  /** How mapping changes one frame: released if the entry mapped it before, then referenced once more if mapped now. */
  lemma MapFrame(s: State, pid: u8, lp: u16, f: u16, g: FrameIndex) returns (released: Frame)
    requires Mappable(pid, lp, f)
    ensures var e := s.table[pid][lp];
      released == if e.valid then ReleaseFrame(s.frames, e.physicalPage)[g] else s.frames[g]
    ensures MapPage(s, pid, lp, f).frames[g] ==
      if g != f then released
      else released.(status := PageMapped, refCount := Wrap16(released.refCount + 1), accessTime := Tick(Tick(s.clock)))
    ensures Mappings(MapPage(s, pid, lp, f).table, g)
         == Mappings(s.table, g) + (if g == f then 1 else 0) - Hit(s.table[pid][lp], g)
  {
    hide Mappings, ReleaseFrame;
    var e := s.table[pid][lp];
    released := if e.valid then ReleaseFrame(s.frames, e.physicalPage)[g] else s.frames[g];
    MappingsUpdate(s.table, g, pid, lp, MapPage(s, pid, lp, f).table[pid][lp]);
  }

  lemma MapCounted(s: State, pid: u8, lp: u16, f: u16, g: FrameIndex)
    requires Counted(s.frames, s.table) && Mappable(pid, lp, f)
    ensures FrameCounted(MapPage(s, pid, lp, f).frames[g], Mappings(MapPage(s, pid, lp, f).table, g))
  {
    hide Mappings, MapPage;
    var released := MapFrame(s, pid, lp, f, g);
    assert FrameCounted(s.frames[g], Mappings(s.table, g));
    if s.table[pid][lp].valid && s.table[pid][lp].physicalPage == g {
      assert FrameCounted(released, Mappings(s.table, g) - 1) by {
        assert Mappings(s.table, g) >= 1;
      }
    }
  }

  /** Mapping a frame nobody maps yet, held by the process, at an invalid entry. */
  lemma MapKeepsAllocInv(s: State, pid: u8, lp: u16, f: u16)
    requires AllocInv(s) && Mappable(pid, lp, f) && !s.table[pid][lp].valid
    requires s.frames[f].status == PageAllocated && s.frames[f].owner == pid && Mappings(s.table, f) == 0
    ensures AllocInv(MapPage(s, pid, lp, f))
  {
    MapExact(s, pid, lp, f);
    MapDistinct(s, pid, lp, f);
    MapTracked(s, pid, lp, f);
  }

  lemma MapExact(s: State, pid: u8, lp: u16, f: u16)
    requires Exact(s.frames, s.table) && Mappable(pid, lp, f) && !s.table[pid][lp].valid
    requires s.frames[f].status == PageAllocated && Mappings(s.table, f) == 0
    ensures Exact(MapPage(s, pid, lp, f).frames, MapPage(s, pid, lp, f).table)
  {
    hide Mappings, MapPage;
    forall g: FrameIndex
      ensures FrameExact(MapPage(s, pid, lp, f).frames[g], Mappings(MapPage(s, pid, lp, f).table, g))
    {
      var released := MapFrame(s, pid, lp, f, g);
      assert FrameExact(s.frames[g], Mappings(s.table, g));
    }
  }

  lemma MapDistinct(s: State, pid: u8, lp: u16, f: u16)
    requires Owned(s.frames, s.table) && Injective(s.table) && Mappable(pid, lp, f) && !s.table[pid][lp].valid
    requires s.frames[f].owner == pid && Mappings(s.table, f) == 0
    ensures Owned(MapPage(s, pid, lp, f).frames, MapPage(s, pid, lp, f).table)
    ensures Injective(MapPage(s, pid, lp, f).table)
  {
    var r := MapPage(s, pid, lp, f);
    forall q, l | 0 <= q < MAX_PROCESSES && 0 <= l < MAX_PAGES_PER_PROC && !(q == pid && l == lp)
      ensures r.table[q][l] == s.table[q][l] && (s.table[q][l].valid ==> s.table[q][l].physicalPage != f)
    {
      assert Hit(s.table[q][l], f) == 0;
    }
  }

  lemma MapTracked(s: State, pid: u8, lp: u16, f: u16)
    requires DirtyTracked(s.cache, s.table) && Mappable(pid, lp, f) && !s.table[pid][lp].valid
    ensures DirtyTracked(s.cache, MapPage(s, pid, lp, f).table)
  {
    var r := MapPage(s, pid, lp, f);
    forall tag: u32 | LineDirty(s.cache, tag)
      ensures DirtyPage(r.table, tag / LINES_PER_PAGE)
    {
      var p, l :| 0 <= p < MAX_PROCESSES && 0 <= l < MAX_PAGES_PER_PROC
        && s.table[p][l].valid && s.table[p][l].dirty && s.table[p][l].physicalPage == tag / LINES_PER_PAGE;
      assert r.table[p][l] == s.table[p][l];
    }
  }

  lemma UnmapKeepsInv(s: State, pid: u8, lp: u16)
    requires Inv(s)
    ensures Inv(UnmapPage(s, pid, lp))
  {
    if ValidPage(s.table, pid, lp) {
      var r := UnmapPage(s, pid, lp);
      ScrubFrameEffect(s.cache, s.mem, s.table[pid][lp].physicalPage, true);
      forall g: FrameIndex
        ensures FrameCounted(r.frames[g], Mappings(r.table, g))
      {
        assert FrameCounted(s.frames[g], Mappings(s.table, g));
        MappingsUpdate(s.table, g, pid, lp, r.table[pid][lp]);
      }
    }
  }

  lemma UnmapKeepsAllocInv(s: State, pid: u8, lp: u16)
    requires AllocInv(s)
    ensures AllocInv(UnmapPage(s, pid, lp))
  {
    if ValidPage(s.table, pid, lp) {
      UnmapExact(s, pid, lp);
      UnmapDistinct(s, pid, lp);
      ScrubFrameEffect(s.cache, s.mem, s.table[pid][lp].physicalPage, true);
      UnmapTracked(s, pid, lp);
    }
  }

  lemma UnmapExact(s: State, pid: u8, lp: u16)
    requires Exact(s.frames, s.table) && ValidPage(s.table, pid, lp)
    ensures Exact(UnmapPage(s, pid, lp).frames, UnmapPage(s, pid, lp).table)
  {
    var r := UnmapPage(s, pid, lp);
    forall g: FrameIndex
      ensures FrameExact(r.frames[g], Mappings(r.table, g))
    {
      assert FrameExact(s.frames[g], Mappings(s.table, g));
      MappingsUpdate(s.table, g, pid, lp, r.table[pid][lp]);
    }
  }

  lemma UnmapDistinct(s: State, pid: u8, lp: u16)
    requires Owned(s.frames, s.table) && Injective(s.table) && ValidPage(s.table, pid, lp)
    ensures Owned(UnmapPage(s, pid, lp).frames, UnmapPage(s, pid, lp).table)
    ensures Injective(UnmapPage(s, pid, lp).table)
  {
    var r := UnmapPage(s, pid, lp);
    assert forall q, l | 0 <= q < MAX_PROCESSES && 0 <= l < MAX_PAGES_PER_PROC && r.table[q][l].valid ::
      r.table[q][l] == s.table[q][l] && !(q == pid && l == lp);
  }

  /** A clean entry has no dirty line, so skipping its scan leaves none behind. */
  lemma UnmapTracked(s: State, pid: u8, lp: u16)
    requires Coherent(s.cache, s.mem) && Injective(s.table) && DirtyTracked(s.cache, s.table)
    requires ValidPage(s.table, pid, lp)
    ensures DirtyTracked(UnmapPage(s, pid, lp).cache, UnmapPage(s, pid, lp).table)
    ensures forall tag: u32 | tag / LINES_PER_PAGE == s.table[pid][lp].physicalPage ::
      !LineDirty(UnmapPage(s, pid, lp).cache, tag)
  {
    var r, e := UnmapPage(s, pid, lp), s.table[pid][lp];
    ScrubFrameEffect(s.cache, s.mem, e.physicalPage, true);
    forall tag: u32 | LineDirty(r.cache, tag)
      ensures DirtyPage(r.table, tag / LINES_PER_PAGE) && tag / LINES_PER_PAGE != e.physicalPage
    {
      var p, l :| 0 <= p < MAX_PROCESSES && 0 <= l < MAX_PAGES_PER_PROC
        && s.table[p][l].valid && s.table[p][l].dirty && s.table[p][l].physicalPage == tag / LINES_PER_PAGE;
      assert !(p == pid && l == lp);
      assert r.table[p][l] == s.table[p][l];
    }
  }
}
