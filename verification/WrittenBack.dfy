/** What unmapping, scrubbing, flushing and eviction do to lines and to memory, whatever the cache holds: which lines
    are dropped, and which bytes go back. */
module WrittenBack {
  import opened Words
  import opened Sram
  import opened CacheSets
  import opened PageCacheModel
  import opened PageCacheInvariants
  import opened PageCacheSteps
  import opened PagedAllocator

  // ---------- What a write-back of lines is for ----------

  /** The line of memory as it would be if the cached line, when dirty, were written back. */
  function PendingIn(lines: seq<CacheLine>, m: Memory, tag: u32): LineData
    requires tag < TOTAL_TAGS
  {
    var w := Lookup(lines, tag);
    if w < |lines| && lines[w].dirty then lines[w].data else Line(m, tag)
  }

  function Pending(c: Cache, m: Memory, tag: u32): LineData
    requires tag < TOTAL_TAGS
  {
    PendingIn(c[tag % CACHE_NUM_SETS], m, tag)
  }

  /** The resident line with this tag. */
  function Held(c: Cache, tag: u32): CacheLine
    requires Resident(c, tag)
  {
    c[tag % CACHE_NUM_SETS][Lookup(c[tag % CACHE_NUM_SETS], tag)]
  }

  lemma HeldIs(c: Cache, m: Memory, tag: u32)
    requires tag < TOTAL_TAGS
    ensures var k := tag % CACHE_NUM_SETS;
      && Pending(c, m, tag) == PendingIn(c[k], m, tag)
      && (Resident(c, tag) ==> Held(c, tag) == c[k][Lookup(c[k], tag)])
  {
  }

  lemma PendingOf(c: Cache, m: Memory, tag: u32)
    requires tag < TOTAL_TAGS
    ensures Pending(c, m, tag) == if Resident(c, tag) && Held(c, tag).dirty then Held(c, tag).data else Line(m, tag)
  {
  }

  /** From the first cache and memory to the second, exactly the dirty lines with these tags went back, each to its own
      place; the lines with these tags are dropped, or kept and clean, and every other line is as it was. */
  ghost predicate Scrubbed(c: Cache, m: Memory, d: Cache, n: Memory, tags: iset<u32>, drop: bool) {
    && Shaped(d)
    && (forall u: u32 :: Resident(d, u) <==> Resident(c, u) && !(drop && u in tags))
    && (forall u: u32 | Resident(d, u) && Resident(c, u) ::
          Held(d, u) == Held(c, u).(dirty := Held(c, u).dirty && u !in tags))
    && (forall u: u32 | u < TOTAL_TAGS :: Line(n, u) == if u in tags then Pending(c, m, u) else Line(m, u))
    && (forall u: u32 | u < TOTAL_TAGS :: Pending(d, n, u) == Pending(c, m, u))
  }

  lemma ScrubbedThen(c: Cache, m: Memory, d: Cache, n: Memory, e: Cache, o: Memory, A: iset<u32>, B: iset<u32>,
                     drop: bool)
    requires Scrubbed(c, m, d, n, A, drop) && Scrubbed(d, n, e, o, B, drop)
    ensures Scrubbed(c, m, e, o, A + B, drop)
  {
    hide Shaped, Resident, Held, Pending, Line;
  }

  lemma NoneScrubbed(c: Cache, m: Memory, drop: bool)
    requires Shaped(c)
    ensures Scrubbed(c, m, c, m, iset{}, drop)
  {
    hide Shaped, Resident, Held, Pending, Line;
  }

  // ---------- One line ----------

  lemma CellWritten(m: Memory, tag: u32, d: LineData, u: u32, i: nat)
    requires tag < TOTAL_TAGS && u < TOTAL_TAGS && i < CACHE_LINE_SIZE
    ensures Line(Overwrite(m, tag * CACHE_LINE_SIZE, d), u)[i] == if u == tag then d[i] else Line(m, u)[i]
  {
    var gap := Gap(tag * CACHE_LINE_SIZE, u * CACHE_LINE_SIZE + i);
    assert if u == tag then gap == i else gap >= CACHE_LINE_SIZE;
  }

  /** A line written to its own place is that line of memory; no other line changes. */
  lemma WriteBackLines(m: Memory, line: CacheLine, u: u32)
    requires line.tag < TOTAL_TAGS && u < TOTAL_TAGS
    ensures Line(Code.WriteBack(m, line), u) == if u == line.tag && line.dirty then line.data else Line(m, u)
  {
    hide Line, Overwrite;
    var r := Overwrite(m, line.tag * CACHE_LINE_SIZE, line.data);
    forall i: nat | i < CACHE_LINE_SIZE
      ensures Line(r, u)[i] == if u == line.tag then line.data[i] else Line(m, u)[i]
    {
      CellWritten(m, line.tag, line.data, u, i);
    }
    assert Line(r, u) == if u == line.tag then line.data else Line(m, u);
  }

  lemma LineWrittenLines(c: Cache, m: Memory, tag: u32, u: u32)
    requires tag < TOTAL_TAGS && u < TOTAL_TAGS
    ensures Line(Code.LineWritten(c, m, tag), u) == if u == tag then Pending(c, m, u) else Line(m, u)
  {
    hide Code.WriteBack, Line;
    var cacheSet := c[tag % CACHE_NUM_SETS];
    if Lookup(cacheSet, tag) < CACHE_NUM_WAYS {
      WriteBackLines(m, cacheSet[Lookup(cacheSet, tag)], u);
    }
  }

  lemma ScrubSetLines(c: CacheSet, k: nat, tag: u32, drop: bool, u: u32)
    requires SetShaped(c, k)
    ensures var d := ScrubSet(c, tag, drop);
      && SetShaped(d, k)
      && (Lookup(d, u) < CACHE_NUM_WAYS <==> Lookup(c, u) < CACHE_NUM_WAYS && !(drop && u == tag))
      && (Lookup(d, u) < CACHE_NUM_WAYS ==>
            d[Lookup(d, u)] == c[Lookup(c, u)].(dirty := c[Lookup(c, u)].dirty && u != tag))
      && (forall w | 0 <= w < |c| && !Holds(c[w], tag) :: d[w] == c[w])
      && (drop ==> forall w | 0 <= w < |c| :: d[w].dirty == c[w].dirty)
  {
    var d, w, v := ScrubSet(c, tag, drop), Lookup(c, u), Lookup(ScrubSet(c, tag, drop), u);
    if w < CACHE_NUM_WAYS && !(drop && u == tag) {
      assert Holds(d[w], u);
    }
    if v < CACHE_NUM_WAYS {
      assert Holds(c[v], u);
    }
  }

  lemma ScrubLineOthers(c: Cache, tag: u32, drop: bool, u: u32)
    requires Shaped(c)
    ensures var d := ScrubLine(c, tag, drop);
      && Shaped(d)
      && (Resident(d, u) <==> Resident(c, u) && !(drop && u == tag))
      && (Resident(d, u) ==> Held(d, u) == Held(c, u).(dirty := Held(c, u).dirty && u != tag))
  {
    var k := tag % CACHE_NUM_SETS;
    ScrubSetLines(c[k], k, tag, drop, u);
    assert forall i | 0 <= i < CACHE_NUM_SETS && i != k :: ScrubLine(c, tag, drop)[i] == c[i];
    hide ScrubSet, SetShaped, Lookup;
  }

  lemma LineScrubbedAt(c: Cache, m: Memory, tag: u32, drop: bool, u: u32)
    requires Shaped(c) && tag < TOTAL_TAGS && u < TOTAL_TAGS
    ensures var d, n := ScrubLine(c, tag, drop), Code.LineWritten(c, m, tag);
      && Line(n, u) == (if u == tag then Pending(c, m, u) else Line(m, u))
      && Pending(d, n, u) == Pending(c, m, u)
  {
    ScrubLineOthers(c, tag, drop, u);
    hide Shaped, Line, ScrubLine, Code.LineWritten, Resident, Held, Pending;
    LineWrittenLines(c, m, tag, u);
    PendingOf(c, m, u);
    PendingOf(ScrubLine(c, tag, drop), Code.LineWritten(c, m, tag), u);
  }

  lemma LineScrubbed(c: Cache, m: Memory, tag: u32, drop: bool)
    requires Shaped(c) && tag < TOTAL_TAGS
    ensures Scrubbed(c, m, ScrubLine(c, tag, drop), Code.LineWritten(c, m, tag), iset{tag}, drop)
  {
    hide Shaped, Line, ScrubLine, Code.LineWritten, Resident, Held, Pending;
    var d, n := ScrubLine(c, tag, drop), Code.LineWritten(c, m, tag);
    ScrubLineOthers(c, tag, drop, tag);
    forall u: u32
      ensures Resident(d, u) <==> Resident(c, u) && !(drop && u == tag)
      ensures Resident(d, u) ==> Held(d, u) == Held(c, u).(dirty := Held(c, u).dirty && u != tag)
    {
      ScrubLineOthers(c, tag, drop, u);
    }
    forall u: u32 | u < TOTAL_TAGS
      ensures Line(n, u) == if u == tag then Pending(c, m, u) else Line(m, u)
      ensures Pending(d, n, u) == Pending(c, m, u)
    {
      LineScrubbedAt(c, m, tag, drop, u);
    }
  }

  // ---------- The lines of frames ----------

  predicate InRange(u: u32, lo: u32, hi: u32) { lo <= u < hi }

  ghost function TagRange(lo: u32, hi: u32): iset<u32> { iset u: u32 | InRange(u, lo, hi) }

  lemma {:induction false} TagsScrubbed(c: Cache, m: Memory, lo: u32, hi: u32, drop: bool)
    requires Shaped(c) && lo <= hi <= TOTAL_TAGS
    ensures Scrubbed(c, m, ScrubTags(c, lo, hi, drop), Code.TagsWritten(c, m, lo, hi, drop),
                     TagRange(lo, hi), drop)
    decreases hi - lo
  {
    hide Shaped, Scrubbed, ScrubLine, Code.LineWritten;
    if lo == hi {
      NoneScrubbed(c, m, drop);
      assert TagRange(lo, hi) == iset{};
    } else {
      var d, n := ScrubTags(c, lo, hi - 1, drop), Code.TagsWritten(c, m, lo, hi - 1, drop);
      TagsScrubbed(c, m, lo, hi - 1, drop);
      ScrubbedShaped(c, m, d, n, TagRange(lo, hi - 1), drop);
      LineScrubbed(d, n, hi - 1, drop);
      ScrubbedThen(c, m, d, n, ScrubLine(d, hi - 1, drop), Code.LineWritten(d, n, hi - 1),
                   TagRange(lo, hi - 1), iset{hi - 1}, drop);
      assert TagRange(lo, hi) == TagRange(lo, hi - 1) + iset{hi - 1};
    }
  }

  lemma ScrubbedShaped(c: Cache, m: Memory, d: Cache, n: Memory, tags: iset<u32>, drop: bool)
    requires Scrubbed(c, m, d, n, tags, drop)
    ensures Shaped(d)
  {
  }

  /** The tags of the lines of a frame. */
  ghost function FrameTags(f: FrameIndex): iset<u32> { iset u: u32 | u / LINES_PER_PAGE == f }

  lemma FrameScrubbed(s: State, f: FrameIndex, drop: bool)
    requires Shaped(s.cache)
    ensures Scrubbed(s.cache, s.mem, ScrubFrame(s.cache, f, drop), Code.FrameWritten(s, f, drop).mem,
                     FrameTags(f), drop)
  {
    hide Shaped, Scrubbed, ScrubTags, Code.TagsWritten;
    var lo := f * LINES_PER_PAGE;
    TagsScrubbed(s.cache, s.mem, lo, lo + LINES_PER_PAGE, drop);
    assert TagRange(lo, lo + LINES_PER_PAGE) == FrameTags(f);
  }

  // ---------- Unmapping ----------

  /** The tags of the lines that unmapping n pages scans: those of the frames of the valid pages marked dirty. */
  ghost function DirtyTags(t: PageTable, pid: u8, start: nat, n: nat): iset<u32>
    requires pid < MAX_PROCESSES && start + n <= MAX_PAGES_PER_PROC
  {
    iset u: u32 | exists l ::
      start <= l < start + n && t[pid][l].valid && t[pid][l].dirty && t[pid][l].physicalPage == u / LINES_PER_PAGE
  }

  /** Unmapping a dirty page drops exactly the lines of its frame and writes back the dirty ones; unmapping a clean page
      leaves cache and memory as they were. */
  lemma UnmapLines(s: State, pid: u8, lp: u16)
    requires Shaped(s.cache)
    ensures var r := Code.UnmapPage(s, pid, lp);
      if ValidPage(s.table, pid, lp) && s.table[pid][lp].dirty
      then Scrubbed(s.cache, s.mem, r.cache, r.mem, FrameTags(s.table[pid][lp].physicalPage), true)
      else r.cache == s.cache && r.mem == s.mem
  {
    hide Shaped, Scrubbed, Code.TagsWritten, ScrubFrame, ReleaseFrame, FrameTags;
    if ValidPage(s.table, pid, lp) {
      FrameScrubbed(s, s.table[pid][lp].physicalPage, true);
    }
  }

  lemma UnmapScrubbed(s: State, pid: u8, lp: nat)
    requires Shaped(s.cache) && pid < MAX_PROCESSES && lp < MAX_PAGES_PER_PROC
    ensures var r := Code.UnmapPage(s, pid, lp);
      && Scrubbed(s.cache, s.mem, r.cache, r.mem, DirtyTags(s.table, pid, lp, 1), true)
      && SameOutside(s.table, r.table, pid, lp, 1)
  {
    hide Shaped, Scrubbed, Code.TagsWritten, ScrubFrame;
    UnmapLines(s, pid, lp);
    NoneScrubbed(s.cache, s.mem, true);
    var e := s.table[pid][lp];
    assert DirtyTags(s.table, pid, lp, 1) == if e.valid && e.dirty then FrameTags(e.physicalPage) else iset{};
  }

  /** What unmapping does to the tables: the entry ends invalid, clean and without accesses, its frame loses one
      reference and is free if that was the last, and nothing else changes. */
  lemma UnmapTables(s: State, pid: u8, lp: u16)
    requires Counted(s.frames, s.table) && ValidPage(s.table, pid, lp)
    ensures var r, e := Code.UnmapPage(s, pid, lp), s.table[pid][lp];
      && r.clock == s.clock && SameOutside(s.table, r.table, pid, lp, 1)
      && r.table[pid][lp] == e.(valid := false, dirty := false, accessCount := 0)
      && (forall g: FrameIndex | g != e.physicalPage :: r.frames[g] == s.frames[g])
      && (s.frames[e.physicalPage].refCount <= 1 ==> r.frames[e.physicalPage].status == PageFree)
      && (s.frames[e.physicalPage].refCount > 1 ==>
            r.frames[e.physicalPage] == s.frames[e.physicalPage].(refCount := s.frames[e.physicalPage].refCount - 1))
  {
    hide Code.TagsWritten, ScrubFrame;
    var f := s.table[pid][lp].physicalPage;
    assert FrameCounted(s.frames[f], Mappings(s.table, f));
    ReleaseOutcome(s, f);
  }

  lemma {:induction false} UnmapRunScrubbed(s: State, pid: u8, start: nat, n: nat)
    requires Shaped(s.cache) && pid < MAX_PROCESSES && start + n <= MAX_PAGES_PER_PROC
    ensures var r := Code.UnmapRun(s, pid, start, n);
      Scrubbed(s.cache, s.mem, r.cache, r.mem, DirtyTags(s.table, pid, start, n), true)
    decreases n
  {
    hide Shaped, Scrubbed, Code.UnmapPage;
    if n == 0 {
      NoneScrubbed(s.cache, s.mem, true);
      assert DirtyTags(s.table, pid, start, n) == iset{};
    } else {
      var t, r := Code.UnmapPage(s, pid, start), Code.UnmapRun(s, pid, start, n);
      var A := DirtyTags(s.table, pid, start, 1);
      UnmapScrubbed(s, pid, start);
      ScrubbedShaped(s.cache, s.mem, t.cache, t.mem, A, true);
      UnmapRunScrubbed(t, pid, start + 1, n - 1);
      ScrubbedThen(s.cache, s.mem, t.cache, t.mem, r.cache, r.mem, A, DirtyTags(t.table, pid, start + 1, n - 1), true);
      DirtyTagsSplit(s.table, t.table, pid, start, n);
    }
  }

  lemma DirtyTagsSplit(t: PageTable, v: PageTable, pid: u8, start: nat, n: nat)
    requires pid < MAX_PROCESSES && n > 0 && start + n <= MAX_PAGES_PER_PROC && SameOutside(t, v, pid, start, 1)
    ensures DirtyTags(t, pid, start, n) == DirtyTags(t, pid, start, 1) + DirtyTags(v, pid, start + 1, n - 1)
  {
    assert forall l | start + 1 <= l < start + n :: v[pid][l] == t[pid][l];
  }

  /** `pagedFree` drops exactly the lines of the dirty pages it unmaps, and writes the dirty ones back. */
  lemma FreeLines(s: State, pid: u8, addr: u32)
    requires Shaped(s.cache)
    ensures var r := Code.PagedFree(s, pid, addr);
      if addr == 0 || !Mapped(s.table, pid, addr) then r == s
      else Scrubbed(s.cache, s.mem, r.cache, r.mem,
                    DirtyTags(s.table, pid, PageOf(addr), FreedPages(s.table, pid, addr)), true)
  {
    hide Shaped, Scrubbed, Code.UnmapRun, DirtyTags;
    if addr != 0 && Mapped(s.table, pid, addr) {
      UnmapRunScrubbed(s, pid, PageOf(addr), FreedPages(s.table, pid, addr));
    }
  }

  // ---------- Scrubbing a process ----------

  /** The tags of the lines of the valid pages of a process. */
  ghost function PageTags(row: seq<Pte>): iset<u32> {
    iset u: u32 | exists l :: 0 <= l < |row| && row[l].valid && row[l].physicalPage == u / LINES_PER_PAGE
  }

  /** The table after scrubbing: cleaning clears the dirty bits of the valid pages. */
  ghost predicate RowScrubbed(t: PageTable, v: PageTable, pid: u8, n: nat, drop: bool)
    requires pid < MAX_PROCESSES
  {
    && SameOutside(t, v, pid, 0, n)
    && (forall l | 0 <= l < n && l < MAX_PAGES_PER_PROC ::
          v[pid][l] == t[pid][l].(dirty := t[pid][l].dirty && (drop || !t[pid][l].valid)))
  }

  /** Scrubbing a process scrubs exactly the lines of its valid pages; of the tables it changes the dirty bits of these
      pages, and only when it cleans. */
  lemma {:induction false} ProcessScrubbed(s: State, pid: u8, drop: bool, row: seq<Pte>)
    requires Shaped(s.cache) && pid < MAX_PROCESSES && row <= s.table[pid]
    ensures var r := Code.ScrubProcess(s, pid, drop, row);
      && Scrubbed(s.cache, s.mem, r.cache, r.mem, PageTags(row), drop)
      && RowScrubbed(s.table, r.table, pid, |row|, drop)
      && r.frames == s.frames && r.clock == s.clock
  {
    hide Shaped, Scrubbed, ScrubFrame, Code.TagsWritten;
    if row == [] {
      NoneScrubbed(s.cache, s.mem, drop);
      assert PageTags(row) == iset{};
    } else {
      var lp := |row| - 1;
      var t, r := Code.ScrubProcess(s, pid, drop, row[..lp]), Code.ScrubProcess(s, pid, drop, row);
      ProcessScrubbed(s, pid, drop, row[..lp]);
      ScrubbedShaped(s.cache, s.mem, t.cache, t.mem, PageTags(row[..lp]), drop);
      var f := row[lp].physicalPage;
      assert row[lp] == t.table[pid][lp];
      assert PageTags(row) == if row[lp].valid then PageTags(row[..lp]) + FrameTags(f) else PageTags(row[..lp]);
      if row[lp].valid {
        FrameScrubbed(t, f, drop);
        ScrubbedThen(s.cache, s.mem, t.cache, t.mem, r.cache, r.mem, PageTags(row[..lp]), FrameTags(f), drop);
      }
    }
  }

  /** Invalidating a process drops the lines of its valid pages and leaves the tables; flushing it keeps these lines,
      clean, and clears these pages' dirty bits; either writes back exactly the dirty ones. */
  lemma ProcessCalls(s: State, pid: u8)
    requires Shaped(s.cache)
    ensures var d, f := Code.InvalidateProcess(s, pid), Code.FlushProcess(s, pid);
      if pid >= MAX_PROCESSES then d == f == s
      else
        && Scrubbed(s.cache, s.mem, d.cache, d.mem, PageTags(s.table[pid]), true)
        && Scrubbed(s.cache, s.mem, f.cache, f.mem, PageTags(s.table[pid]), false)
        && d.frames == f.frames == s.frames && d.clock == f.clock == s.clock
        && RowScrubbed(s.table, d.table, pid, MAX_PAGES_PER_PROC, true)
        && RowScrubbed(s.table, f.table, pid, MAX_PAGES_PER_PROC, false)
  {
    hide Shaped, Scrubbed, RowScrubbed, Code.ScrubProcess, PageTags;
    if pid < MAX_PROCESSES {
      ProcessScrubbed(s, pid, true, s.table[pid]);
      ProcessScrubbed(s, pid, false, s.table[pid]);
    }
  }

  // ---------- Flushing the whole cache ----------

  lemma {:induction false} LinesFlushed(lines: seq<CacheLine>, m: Memory, k: nat, u: u32)
    requires forall w | 0 <= w < |lines| && lines[w].valid :: lines[w].tag < TOTAL_TAGS
    requires forall v, w | 0 <= v < w < |lines| && lines[v].valid && lines[w].valid :: lines[v].tag != lines[w].tag
    requires u < TOTAL_TAGS
    ensures Line(Code.LinesWritten(lines, m), u) == PendingIn(lines, m, u)
  {
    hide Line, Code.WriteBack;
    if lines != [] {
      var l := |lines| - 1;
      LinesFlushed(lines[..l], m, k, u);
      if lines[l].valid {
        WriteBackLines(Code.LinesWritten(lines[..l], m), lines[l], u);
      }
    }
  }

  lemma {:induction false} SetsFlushed(sets: seq<CacheSet>, m: Memory, u: u32)
    requires |sets| <= CACHE_NUM_SETS && u < TOTAL_TAGS
    requires forall k | 0 <= k < |sets| :: SetShaped(sets[k], k)
    ensures var k := u % CACHE_NUM_SETS;
      Line(Code.SetsWritten(sets, m), u) == if k < |sets| then PendingIn(sets[k], m, u) else Line(m, u)
  {
    hide Line, Code.LinesWritten, Lookup;
    if sets != [] {
      var k := |sets| - 1;
      SetsFlushed(sets[..k], m, u);
      LinesFlushed(sets[k], Code.SetsWritten(sets[..k], m), k, u);
    }
  }

  /** Flushing the cache writes every dirty line back to its place and leaves no line; invalidating it leaves no line
      and writes nothing. */
  lemma FlushLines(s: State)
    requires Shaped(s.cache)
    ensures Scrubbed(s.cache, s.mem, Code.FlushCache(s).cache, Code.FlushCache(s).mem, TagRange(0, TOTAL_TAGS), true)
    ensures InvalidateAll(s).mem == s.mem && forall u: u32 :: !Resident(InvalidateAll(s).cache, u)
    ensures forall k, w | 0 <= k < CACHE_NUM_SETS && 0 <= w < CACHE_NUM_WAYS ::
      && !InvalidateAll(s).cache[k][w].dirty
      && Code.FlushCache(s).cache[k][w].dirty == (s.cache[k][w].dirty && !s.cache[k][w].valid)
  {
    EmptyingEffect(s);
    hide Line, Lookup, Code.SetsWritten;
    forall u: u32 | u < TOTAL_TAGS
      ensures Line(Code.FlushCache(s).mem, u) == Pending(s.cache, s.mem, u)
    {
      SetsFlushed(s.cache, s.mem, u);
    }
  }

  // ---------- Eviction ----------

  /** In a shaped set a line is found in the one way that holds it. */
  lemma SetHolds(c: CacheSet, k: nat, u: u32)
    requires SetShaped(c, k)
    ensures forall w | 0 <= w < |c| && Holds(c[w], u) :: Lookup(c, u) == w
  {
  }

  /** The line has to make room for the tag: the set is full without the tag, and this line was used least recently. */
  predicate MakesRoom(c: CacheSet, tag: u32, u: u32) {
    Lookup(c, tag) == |c| && FreeWay(c) == |c| && c[LruWay(c)].tag == u
  }

  lemma AccessLookups(c: CacheSet, k: nat, tag: u32, now: u32, fill: LineData, u: u32)
    requires SetShaped(c, k) && tag < TOTAL_TAGS && tag % CACHE_NUM_SETS == k
    ensures var d := Access(c, tag, now, fill);
      && SetShaped(d, k)
      && (Lookup(d, u) < |d| <==> u == tag || (Lookup(c, u) < |c| && !MakesRoom(c, tag, u)))
      && (Lookup(d, u) < |d| ==>
            d[Lookup(d, u)] == if Lookup(c, u) == |c| then CacheLine(tag, true, false, fill, now)
                               else if u == tag then c[Lookup(c, u)].(lastAccess := now)
                               else c[Lookup(c, u)])
  {
    var d, w := Access(c, tag, now, fill), Slot(c, tag);
    AccessShaped(c, k, tag, now, fill);
    WayReplaced(c, d, k, w, u);
    SetHolds(c, k, u);
    hide Lookup, FreeWay, LruWay, SetShaped;
  }

  lemma WayReplaced(c: CacheSet, d: CacheSet, k: nat, w: nat, u: u32)
    requires SetShaped(c, k) && SetShaped(d, k) && w < |c| && d == c[w := d[w]]
    ensures Lookup(d, u) == if Holds(d[w], u) then w else if Lookup(c, u) == w then |d| else Lookup(c, u)
  {
    SetHolds(c, k, u);
    SetHolds(d, k, u);
    hide Lookup, SetShaped;
    if Lookup(c, u) < |c| && Lookup(c, u) != w {
      assert Holds(d[Lookup(c, u)], u);
    }
  }

  lemma AccessShaped(c: CacheSet, k: nat, tag: u32, now: u32, fill: LineData)
    requires SetShaped(c, k) && tag < TOTAL_TAGS && tag % CACHE_NUM_SETS == k
    ensures SetShaped(Access(c, tag, now, fill), k)
  {
  }

  lemma DisplacedLines(c: CacheSet, m: Memory, k: nat, tag: u32, u: u32)
    requires SetShaped(c, k) && tag < TOTAL_TAGS && u < TOTAL_TAGS
    ensures Line(Code.Displaced(c, m, tag), u) == if MakesRoom(c, tag, u) then PendingIn(c, m, u) else Line(m, u)
  {
    hide Line, Code.WriteBack;
    if Lookup(c, tag) == |c| && FreeWay(c) == |c| {
      var v := LruWay(c);
      WriteBackLines(m, c[v], u);
      assert Holds(c[v], c[v].tag);
      SetHolds(c, k, u);
    }
  }

  lemma VictimPlaced(c: CacheSet, k: nat, tag: u32, u: u32)
    requires SetShaped(c, k)
    ensures MakesRoom(c, tag, u) ==> u % CACHE_NUM_SETS == k && Lookup(c, u) < |c| && u != tag
  {
    if MakesRoom(c, tag, u) {
      assert Holds(c[LruWay(c)], u);
    }
  }

  /** From the first cache and memory to the second the line with tag u is pushed out, and written back if dirty, or
      keeps its data and dirty bit, or is the line asked for and comes in as memory has it. */
  predicate Served(c: Cache, m: Memory, d: Cache, n: Memory, tag: u32, now: u32, u: u32)
    requires tag < TOTAL_TAGS && u < TOTAL_TAGS
  {
    && Line(n, u) == (if Resident(c, u) && !Resident(d, u) then Pending(c, m, u) else Line(m, u))
    && Pending(d, n, u) == Pending(c, m, u)
    && (Resident(d, u) ==>
          if Resident(c, u)
          then Held(d, u) == Held(c, u).(lastAccess := if u == tag then now else Held(c, u).lastAccess)
          else u == tag && Held(d, u) == CacheLine(tag, true, false, Line(n, tag), now))
  }

  lemma SetServed(c: CacheSet, m: Memory, k: nat, tag: u32, now: u32, u: u32)
    requires SetShaped(c, k) && tag < TOTAL_TAGS && tag % CACHE_NUM_SETS == k && u < TOTAL_TAGS
    ensures var n := Code.Displaced(c, m, tag);
      var d := Access(c, tag, now, Line(n, tag));
      && (u % CACHE_NUM_SETS != k ==> Line(n, u) == Line(m, u))
      && Line(n, u) == (if Lookup(c, u) < |c| && Lookup(d, u) == |d| then PendingIn(c, m, u) else Line(m, u))
      && (u % CACHE_NUM_SETS == k ==> PendingIn(d, n, u) == PendingIn(c, m, u))
  {
    var n := Code.Displaced(c, m, tag);
    hide Line, Lookup, Access, Code.Displaced, SetShaped, MakesRoom;
    AccessLookups(c, k, tag, now, Line(n, tag), u);
    DisplacedLines(c, m, k, tag, u);
    VictimPlaced(c, k, tag, u);
  }

  lemma AccessPlaced(c: Cache, m: Memory, pa: nat, now: u32)
    requires Shaped(c) && pa < SRAM_SIZE
    ensures Shaped(AccessCache(c, m, pa, now)) && Resident(AccessCache(c, m, pa, now), pa / CACHE_LINE_SIZE)
  {
    var tag := pa / CACHE_LINE_SIZE;
    hide Line, Lookup, Access, SetShaped, MakesRoom;
    AccessLookups(c[tag % CACHE_NUM_SETS], tag % CACHE_NUM_SETS, tag, now, Line(m, tag), tag);
  }

  lemma LineServed(c: Cache, m: Memory, pa: nat, now: u32, u: u32)
    requires Shaped(c) && pa < SRAM_SIZE && u < TOTAL_TAGS
    ensures var tag := pa / CACHE_LINE_SIZE;
      var n := Code.Displaced(c[tag % CACHE_NUM_SETS], m, tag);
      Served(c, m, AccessCache(c, n, pa, now), n, tag, now, u)
  {
    var tag := pa / CACHE_LINE_SIZE;
    var k := tag % CACHE_NUM_SETS;
    var n := Code.Displaced(c[k], m, tag);
    var d := AccessCache(c, n, pa, now);
    hide Line, Lookup, Access, Code.Displaced, SetShaped, MakesRoom, Pending, Held, PendingIn;
    if u % CACHE_NUM_SETS == k {
      AccessLookups(c[k], k, tag, now, Line(n, tag), u);
    }
    SetServed(c[k], m, k, tag, now, u);
    HeldIs(c, m, u);
    HeldIs(d, n, u);
    PendingInSame(c[u % CACHE_NUM_SETS], m, n, u);
  }

  lemma PendingInSame(c: CacheSet, m: Memory, n: Memory, u: u32)
    requires u < TOTAL_TAGS
    ensures Line(n, u) == Line(m, u) ==> PendingIn(c, n, u) == PendingIn(c, m, u)
  {
  }

  /** A cached read pushes out at most one line of the set, which is written back if dirty, and brings in a missing line
      as memory has it; every line that stays keeps its data and dirty bit. */
  lemma ReadLines(s: State, pid: u8, addr: u32)
    requires Shaped(s.cache) && Mapped(s.table, pid, addr)
    ensures var r, tag := Code.ReadByte(s, pid, addr), Translate(s.table, pid, addr) / CACHE_LINE_SIZE;
      && Shaped(r.cache) && Resident(r.cache, tag)
      && (forall u: u32 | u < TOTAL_TAGS :: Served(s.cache, s.mem, r.cache, r.mem, tag, Tick(s.clock), u))
  {
    var r, pa := Code.ReadByte(s, pid, addr), Translate(s.table, pid, addr);
    hide Served, Shaped, AccessCache, Code.Displaced, Resident;
    AccessPlaced(s.cache, Code.RoomMade(s, pid, addr).mem, pa, Tick(s.clock));
    forall u: u32 | u < TOTAL_TAGS
      ensures Served(s.cache, s.mem, r.cache, r.mem, pa / CACHE_LINE_SIZE, Tick(s.clock), u)
    {
      LineServed(s.cache, s.mem, pa, Tick(s.clock), u);
    }
  }

  /** A cached write is a cached read, then the byte in memory and in the line that holds it, which is now dirty, and
      the page marked dirty. */
  lemma WriteIsReadThenStore(s: State, pid: u8, addr: u32, b: u8)
    requires Shaped(s.cache) && Mapped(s.table, pid, addr)
    ensures var r, w, pa := Code.ReadByte(s, pid, addr), Code.WriteByte(s, pid, addr, b), Translate(s.table, pid, addr);
      var tag := pa / CACHE_LINE_SIZE;
      var k := tag % CACHE_NUM_SETS;
      var way := Lookup(r.cache[k], tag);
      && w.mem == r.mem[pa := b] && w.frames == r.frames && w.clock == r.clock
      && w.table == SetPte(r.table, pid, PageOf(addr), r.table[pid][PageOf(addr)].(dirty := true))
      && way < CACHE_NUM_WAYS
      && w.cache == r.cache[k := WithByte(r.cache[k], way, pa % CACHE_LINE_SIZE, b)]
  {
    var r, w, pa := Code.ReadByte(s, pid, addr), Code.WriteByte(s, pid, addr, b), Translate(s.table, pid, addr);
    var tag := pa / CACHE_LINE_SIZE;
    var k := tag % CACHE_NUM_SETS;
    var n := Code.RoomMade(s, pid, addr).mem;
    assert r.cache == AccessCache(s.cache, n, pa, Tick(s.clock));
    assert w.cache == StoreCache(s.cache, n, pa, Tick(s.clock), b);
    assert w.table[pid] == r.table[pid][PageOf(addr) := r.table[pid][PageOf(addr)].(dirty := true)];
    StoreIsAccessThenByte(s.cache[k], k, tag, Tick(s.clock), Line(n, tag), pa % CACHE_LINE_SIZE, b);
    hide Line, Lookup, Code.Displaced, SetShaped, Access, Store, WithByte;
  }

  function WithByte(c: CacheSet, w: nat, o: nat, b: u8): CacheSet
    requires w < CACHE_NUM_WAYS && o < CACHE_LINE_SIZE
  {
    c[w := c[w].(data := c[w].data[o := b], dirty := true)]
  }

  lemma StoreIsAccessThenByte(c: CacheSet, k: nat, tag: u32, now: u32, fill: LineData, o: nat, b: u8)
    requires SetShaped(c, k) && tag < TOTAL_TAGS && tag % CACHE_NUM_SETS == k && o < CACHE_LINE_SIZE
    ensures var d := Access(c, tag, now, fill);
      Lookup(d, tag) < CACHE_NUM_WAYS && Store(c, tag, now, fill, o, b) == WithByte(d, Lookup(d, tag), o, b)
  {
    var d := Access(c, tag, now, fill);
    AccessShaped(c, k, tag, now, fill);
    SetHolds(d, k, tag);
    hide Lookup, Slot, SetShaped;
    assert Holds(d[Slot(c, tag)], tag);
  }
}
