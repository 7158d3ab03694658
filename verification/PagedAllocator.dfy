/** The paged allocator: what `pagedMalloc`, `pagedFree` and `pagedRealloc` do to pages, frames and contents. */
module PagedAllocator {
  import opened Words
  import opened PageCacheModel
  import opened PageCacheInvariants
  import opened PageCacheSteps
  import Code = WritebackModel

  // ---------- Free frames ----------

  /** The number of free frames. */
  function FreeCount(frames: seq<Frame>): (c: nat)
    ensures c == 0 <==> forall f | 0 <= f < |frames| :: frames[f].status != PageFree
    ensures c <= |frames|
  {
    if frames == [] then 0 else FreeCount(frames[..|frames| - 1]) + IsFree(frames[|frames| - 1])
  }

  function IsFree(fr: Frame): nat { if fr.status == PageFree then 1 else 0 }

  lemma {:induction false} FreeCountUpdate(frames: seq<Frame>, f: nat, fr: Frame)
    requires f < |frames|
    ensures FreeCount(frames[f := fr]) == FreeCount(frames) + IsFree(fr) - IsFree(frames[f])
  {
    var k := |frames| - 1;
    if f < k {
      assert frames[f := fr][..k] == frames[..k][f := fr];
      FreeCountUpdate(frames[..k], f, fr);
    } else {
      assert frames[f := fr][..k] == frames[..k];
    }
  }

  /** Taking a frame succeeds iff a free frame exists; the code's eviction branch is never needed. */
  lemma TakeSucceedsIffFree(s: State, pid: u8)
    ensures HasFree(s) <==> FreeCount(s.frames) > 0
    ensures FreeCount(TakeFrame(s, pid).frames) == if FreeCount(s.frames) > 0 then FreeCount(s.frames) - 1 else 0
  {
    var f := FirstFree(s.frames);
    if f < MAX_PHYSICAL_PAGES {
      FreeCountUpdate(s.frames, f, Frame(PageAllocated, pid, 1, Tick(s.clock)));
    }
  }

  /** `freePhysicalPage`: the last reference frees the frame and adds it to the free ones; a frame with more loses
      exactly one and stays in use; a free one stays free. Nothing else changes. */
  lemma ReleaseOutcome(s: State, f: u16)
    requires Counted(s.frames, s.table)
    ensures var r := FreePhysicalPage(s, f);
      && r == s.(frames := r.frames)
      && (f >= MAX_PHYSICAL_PAGES ==> r == s)
      && (forall g: FrameIndex | g != f :: r.frames[g] == s.frames[g])
    ensures f < MAX_PHYSICAL_PAGES ==>
      var was, now := s.frames[f], FreePhysicalPage(s, f).frames[f];
      && (was.refCount <= 1 ==> now.status == PageFree && now.refCount == 0)
      && (was.refCount > 1 ==> now == was.(refCount := was.refCount - 1) && now.status != PageFree)
      && FreeCount(FreePhysicalPage(s, f).frames) == FreeCount(s.frames) + (if was.refCount == 1 then 1 else 0)
  {
    if f < MAX_PHYSICAL_PAGES {
      assert FrameCounted(s.frames[f], Mappings(s.table, f));
      FreeCountUpdate(s.frames, f, ReleaseFrame(s.frames, f)[f]);
      assert ReleaseFrame(s.frames, f) == s.frames[f := ReleaseFrame(s.frames, f)[f]];
    }
  }

  /** Taking a frame and releasing it restores the free frames; the next allocation gets the same frame again. */
  lemma TakeThenRelease(s: State, pid: u8)
    requires Counted(s.frames, s.table) && HasFree(s)
    ensures var f := FirstFree(s.frames);
      var t := TakeFrame(s, pid);
      var r := FreePhysicalPage(t, f);
      && t.frames[f].status == PageAllocated && t.frames[f].owner == pid && t.frames[f].refCount == 1
      && FreeCount(r.frames) == FreeCount(s.frames)
      && (forall g: FrameIndex :: r.frames[g].status == s.frames[g].status)
      && FirstFree(r.frames) == f
  {
    var f, t := FirstFree(s.frames), TakeFrame(s, pid);
    var r := FreePhysicalPage(t, f);
    FreeCountUpdate(s.frames, f, t.frames[f]);
    FreeCountUpdate(t.frames, f, r.frames[f]);
    assert r.frames == t.frames[f := r.frames[f]] && t.frames == s.frames[f := t.frames[f]];
  }

  // ---------- Runs of pages ----------

  /** Outside pages [start, start + n) of the process nothing in the table differs. */
  ghost predicate SameOutside(t: PageTable, u: PageTable, pid: nat, start: nat, n: nat) {
    forall p, l | 0 <= p < MAX_PROCESSES && 0 <= l < MAX_PAGES_PER_PROC && (p != pid || l < start || l >= start + n) ::
      u[p][l] == t[p][l]
  }

  lemma SameOutsideChain(t: PageTable, u: PageTable, v: PageTable, pid: nat, start: nat, n: nat)
    requires n > 0 && pid < MAX_PROCESSES && start < MAX_PAGES_PER_PROC
    requires SameOutside(t, u, pid, start, 1) && SameOutside(u, v, pid, start + 1, n - 1)
    ensures SameOutside(t, v, pid, start, n) && v[pid][start] == u[pid][start]
  {
    forall p, l | 0 <= p < MAX_PROCESSES && 0 <= l < MAX_PAGES_PER_PROC && (p != pid || l < start || l >= start + n)
      ensures v[p][l] == t[p][l]
    {
      assert u[p][l] == t[p][l] && v[p][l] == u[p][l];
    }
  }

  /** As a page is when it is mapped: neither written nor accessed. */
  predicate IsNew(e: Pte) { !e.dirty && e.accessCount == 0 }

  /** The pages of the run are valid and new, on distinct frames that were free in `before`. */
  ghost predicate FreshRun(before: FrameTable, row: PageRow, start: nat, n: nat) {
    && start + n <= MAX_PAGES_PER_PROC
    && (forall l | start <= l < start + n ::
          row[l].valid && IsNew(row[l]) && before[row[l].physicalPage].status == PageFree)
    && (forall l, k | start <= l < k < start + n :: row[l].physicalPage != row[k].physicalPage)
  }

  ghost predicate BusyKept(a: FrameTable, b: FrameTable) {
    forall f: FrameIndex | a[f].status != PageFree :: b[f] == a[f]
  }

  lemma BusyRefl(a: FrameTable)
    ensures BusyKept(a, a)
  {
  }

  lemma BusyTrans(a: FrameTable, b: FrameTable, c: FrameTable)
    requires BusyKept(a, b) && BusyKept(b, c)
    ensures BusyKept(a, c)
  {
  }

  lemma MapRunStop(s: State, pid: u8, start: nat, n: nat)
    requires pid < MAX_PROCESSES && start + n <= MAX_PAGES_PER_PROC && (n == 0 || !HasFree(s))
    ensures MapRun(s, pid, start, n) == (s, 0)
  {
  }

  /** One round of the mapping loop, ending in state t: the frame taken is gone from the free ones. */
  lemma MapOneCounts(s: State, pid: u8, start: nat, n: nat) returns (t: State)
    requires pid < MAX_PROCESSES && n > 0 && start + n <= MAX_PAGES_PER_PROC && Fits(s.table[pid], start, n)
    requires HasFree(s)
    ensures MapRun(s, pid, start, n).0 == MapRun(t, pid, start + 1, n - 1).0
    ensures MapRun(s, pid, start, n).1 == MapRun(t, pid, start + 1, n - 1).1 + 1
    ensures Fits(t.table[pid], start + 1, n - 1)
    ensures BusyKept(s.frames, t.frames) && FreeCount(t.frames) == FreeCount(s.frames) - 1
  {
    var f := FirstFree(s.frames);
    t := MapPage(TakeFrame(s, pid), pid, start, f);
    FreeCountUpdate(s.frames, f, t.frames[f]);
    assert t.frames == s.frames[f := t.frames[f]];
  }

  lemma {:induction false} MapRunCounts(s: State, pid: u8, start: nat, n: nat)
    requires pid < MAX_PROCESSES && start + n <= MAX_PAGES_PER_PROC && Fits(s.table[pid], start, n)
    ensures MapRun(s, pid, start, n).1 == if n <= FreeCount(s.frames) then n else FreeCount(s.frames)
    ensures FreeCount(MapRun(s, pid, start, n).0.frames) == FreeCount(s.frames) - MapRun(s, pid, start, n).1
    ensures BusyKept(s.frames, MapRun(s, pid, start, n).0.frames)
    decreases n
  {
    hide MapRun, FreeCount, Fits, HasFree, BusyKept;
    HasFreeIffCount(s, pid);
    BusyRefl(s.frames);
    if n > 0 && HasFree(s) {
      var t := MapOneCounts(s, pid, start, n);
      MapRunCounts(t, pid, start + 1, n - 1);
      BusyTrans(s.frames, t.frames, MapRun(s, pid, start, n).0.frames);
    } else {
      MapRunStop(s, pid, start, n);
    }
  }

  lemma HasFreeIffCount(s: State, pid: u8)
    ensures HasFree(s) <==> FreeCount(s.frames) > 0
  {
    TakeSucceedsIffFree(s, pid);
  }

  /** One round seen from the page table: page `start` now maps frame f, which was free. */
  lemma MapOnePages(s: State, pid: u8, start: nat, n: nat) returns (t: State, f: FrameIndex)
    requires pid < MAX_PROCESSES && n > 0 && Fits(s.table[pid], start, n)
    requires HasFree(s)
    ensures MapRun(s, pid, start, n).0 == MapRun(t, pid, start + 1, n - 1).0
    ensures MapRun(s, pid, start, n).1 == MapRun(t, pid, start + 1, n - 1).1 + 1
    ensures Fits(t.table[pid], start + 1, n - 1)
    ensures t.cache == s.cache && t.mem == s.mem && SameOutside(s.table, t.table, pid, start, 1)
    ensures t.table[pid][start].valid && IsNew(t.table[pid][start]) && t.table[pid][start].physicalPage == f
    ensures s.frames[f].status == PageFree && OnlyTaken(s.frames, t.frames, f)
  {
    f := FirstFree(s.frames);
    t := MapPage(TakeFrame(s, pid), pid, start, f);
  }

  ghost predicate OnlyTaken(a: FrameTable, b: FrameTable, f: FrameIndex) {
    b[f].status != PageFree && forall g: FrameIndex | g != f :: b[g] == a[g]
  }

  lemma {:induction false} MapRunPages(s: State, pid: u8, start: nat, n: nat)
    requires pid < MAX_PROCESSES && Fits(s.table[pid], start, n)
    ensures MapRun(s, pid, start, n).0.cache == s.cache && MapRun(s, pid, start, n).0.mem == s.mem
    ensures SameOutside(s.table, MapRun(s, pid, start, n).0.table, pid, start, MapRun(s, pid, start, n).1)
    ensures FreshRun(s.frames, MapRun(s, pid, start, n).0.table[pid], start, MapRun(s, pid, start, n).1)
    decreases n
  {
    hide MapRun, HasFree;
    if n == 0 || !HasFree(s) {
      MapRunStop(s, pid, start, n);
    } else {
      hide Fits;
      var t, f := MapOnePages(s, pid, start, n);
      MapRunPages(t, pid, start + 1, n - 1);
      var r := MapRun(s, pid, start, n);
      SameOutsideChain(s.table, t.table, r.0.table, pid, start, r.1);
      FreshRunExtend(s.frames, t.frames, r.0.table[pid], start, r.1, f);
    }
  }

  lemma MapOneKeepsAllocInv(s: State, pid: u8, start: nat, n: nat) returns (t: State)
    requires AllocInv(s) && pid < MAX_PROCESSES && n > 0 && Fits(s.table[pid], start, n)
    requires HasFree(s)
    ensures MapRun(s, pid, start, n).0 == MapRun(t, pid, start + 1, n - 1).0
    ensures AllocInv(t) && Fits(t.table[pid], start + 1, n - 1)
  {
    var f, u := FirstFree(s.frames), TakeFrame(s, pid);
    t := MapPage(u, pid, start, f);
    TakeKeepsAllocInv(s, pid);
    assert FrameExact(s.frames[f], Mappings(s.table, f));
    MapKeepsAllocInv(u, pid, start, f);
  }

  lemma {:induction false} MapRunKeepsAllocInv(s: State, pid: u8, start: nat, n: nat)
    requires AllocInv(s) && pid < MAX_PROCESSES && Fits(s.table[pid], start, n)
    ensures AllocInv(MapRun(s, pid, start, n).0)
    decreases n
  {
    hide MapRun, AllocInv, HasFree;
    if n == 0 || !HasFree(s) {
      MapRunStop(s, pid, start, n);
    } else {
      hide Fits;
      var t := MapOneKeepsAllocInv(s, pid, start, n);
      MapRunKeepsAllocInv(t, pid, start + 1, n - 1);
    }
  }

  lemma MapOneKeepsExact(s: State, pid: u8, start: nat, n: nat) returns (t: State)
    requires Exact(s.frames, s.table) && pid < MAX_PROCESSES && n > 0 && Fits(s.table[pid], start, n) && HasFree(s)
    ensures MapRun(s, pid, start, n).0 == MapRun(t, pid, start + 1, n - 1).0
    ensures Exact(t.frames, t.table) && Fits(t.table[pid], start + 1, n - 1)
  {
    var f, u := FirstFree(s.frames), TakeFrame(s, pid);
    t := MapPage(u, pid, start, f);
    TakeExact(s, pid);
    assert FrameExact(s.frames[f], Mappings(s.table, f));
    MapExact(u, pid, start, f);
  }

  lemma {:induction false} MapRunKeepsExact(s: State, pid: u8, start: nat, n: nat)
    requires Exact(s.frames, s.table) && pid < MAX_PROCESSES && Fits(s.table[pid], start, n)
    ensures Exact(MapRun(s, pid, start, n).0.frames, MapRun(s, pid, start, n).0.table)
    decreases n
  {
    hide MapRun, Exact, HasFree;
    if n == 0 || !HasFree(s) {
      MapRunStop(s, pid, start, n);
    } else {
      hide Fits;
      var t := MapOneKeepsExact(s, pid, start, n);
      MapRunKeepsExact(t, pid, start + 1, n - 1);
    }
  }

  lemma FreshRunExtend(before: FrameTable, after: FrameTable, row: PageRow, start: nat, n: nat, f: FrameIndex)
    requires n > 0 && start + n <= MAX_PAGES_PER_PROC && before[f].status == PageFree
    requires OnlyTaken(before, after, f)
    requires row[start].valid && IsNew(row[start]) && row[start].physicalPage == f
    requires FreshRun(after, row, start + 1, n - 1)
    ensures FreshRun(before, row, start, n)
  {
    forall l | start + 1 <= l < start + n
      ensures row[l].physicalPage != f && before[row[l].physicalPage].status == PageFree
    {
      assert after[row[l].physicalPage].status == PageFree;
    }
  }

  /** The run is invalid afterwards and the rest of the table is untouched. */
  lemma {:induction false} UnmapRunEffect(s: State, pid: u8, start: nat, n: nat)
    requires pid < MAX_PROCESSES && start + n <= MAX_PAGES_PER_PROC
    ensures var r := UnmapRun(s, pid, start, n);
      && r.mem == s.mem && r.clock == s.clock
      && SameOutside(s.table, r.table, pid, start, n)
      && (forall l | start <= l < start + n :: !r.table[pid][l].valid)
    decreases n
  {
    if n > 0 {
      var t := UnmapPage(s, pid, start);
      UnmapRunEffect(t, pid, start + 1, n - 1);
      SameOutsideChain(s.table, t.table, UnmapRun(s, pid, start, n).table, pid, start, n);
    }
  }

  /** With exact counts unmapping a page returns no frame: one reference always stays behind. */
  lemma UnmapKeepsFrames(s: State, pid: u8, lp: u16)
    requires Exact(s.frames, s.table)
    ensures FreeCount(Code.UnmapPage(s, pid, lp).frames) == FreeCount(s.frames)
    ensures Code.UnmapPage(s, pid, lp).frames == UnmapPage(s, pid, lp).frames
    ensures Exact(UnmapPage(s, pid, lp).frames, UnmapPage(s, pid, lp).table)
  {
    hide Code.TagsWritten;
    if ValidPage(s.table, pid, lp) {
      UnmapExact(s, pid, lp);
      var f := s.table[pid][lp].physicalPage;
      assert FrameExact(s.frames[f], Mappings(s.table, f));
      assert Hit(s.table[pid][lp], f) == 1;
      FreeCountUpdate(s.frames, f, ReleaseFrame(s.frames, f)[f]);
      assert ReleaseFrame(s.frames, f) == s.frames[f := ReleaseFrame(s.frames, f)[f]];
    }
  }

  lemma {:induction false} UnmapRunKeepsFrames(s: State, pid: u8, start: nat, n: nat)
    requires Exact(s.frames, s.table) && pid < MAX_PROCESSES && start + n <= MAX_PAGES_PER_PROC
    ensures FreeCount(UnmapRun(s, pid, start, n).frames) == FreeCount(s.frames)
    decreases n
  {
    hide Exact, FreeCount, Code.UnmapPage;
    if n > 0 {
      UnmapKeepsFrames(s, pid, start);
      UnmapRunKeepsFrames(UnmapPage(s, pid, start), pid, start + 1, n - 1);
    }
  }

  /** The write-backs of the code change neither frames nor page table nor clock. */
  lemma {:induction false} UnmapRunTables(s: State, r: State, pid: u8, start: nat, n: nat)
    requires SameTables(s, r) && pid < MAX_PROCESSES && start + n <= MAX_PAGES_PER_PROC
    ensures SameTables(Code.UnmapRun(s, pid, start, n), UnmapRun(r, pid, start, n))
    decreases n
  {
    hide ReleaseFrame, Code.TagsWritten, ScrubFrame;
    if n > 0 {
      UnmapRunTables(Code.UnmapPage(s, pid, start), UnmapPage(r, pid, start), pid, start + 1, n - 1);
    }
  }

  lemma {:induction false} UnmapCleanRun(s: State, pid: u8, start: nat, n: nat)
    requires pid < MAX_PROCESSES && start + n <= MAX_PAGES_PER_PROC
    requires forall l | start <= l < start + n :: !s.table[pid][l].dirty
    ensures Code.UnmapRun(s, pid, start, n) == UnmapRun(s, pid, start, n)
    ensures UnmapRun(s, pid, start, n).cache == s.cache && UnmapRun(s, pid, start, n).mem == s.mem
    decreases n
  {
    hide ReleaseFrame;
    if n > 0 { UnmapCleanRun(UnmapPage(s, pid, start), pid, start + 1, n - 1); }
  }

  lemma {:induction false} UnmapRunKeepsAllocInv(s: State, pid: u8, start: nat, n: nat)
    requires AllocInv(s) && pid < MAX_PROCESSES && start + n <= MAX_PAGES_PER_PROC
    ensures AllocInv(UnmapRun(s, pid, start, n))
    decreases n
  {
    hide AllocInv;
    if n > 0 {
      UnmapKeepsAllocInv(s, pid, start);
      UnmapRunKeepsAllocInv(UnmapPage(s, pid, start), pid, start + 1, n - 1);
    }
  }

  lemma {:induction false} UnmapRunKeepsInv(s: State, pid: u8, start: nat, n: nat)
    requires Inv(s) && pid < MAX_PROCESSES && start + n <= MAX_PAGES_PER_PROC
    ensures Inv(UnmapRun(s, pid, start, n))
    decreases n
  {
    if n > 0 {
      UnmapKeepsInv(s, pid, start);
      UnmapRunKeepsInv(UnmapPage(s, pid, start), pid, start + 1, n - 1);
    }
  }

  lemma {:induction false} MapRunKeepsInv(s: State, pid: u8, start: nat, n: nat)
    requires Inv(s) && pid < MAX_PROCESSES && start + n <= MAX_PAGES_PER_PROC
    ensures Inv(MapRun(s, pid, start, n).0)
    decreases n
  {
    hide MapRun, Inv, HasFree;
    if n == 0 || !HasFree(s) {
      MapRunStop(s, pid, start, n);
    } else {
      var t := MapOneKeepsInv(s, pid, start, n);
      MapRunKeepsInv(t, pid, start + 1, n - 1);
    }
  }

  lemma MapOneKeepsInv(s: State, pid: u8, start: nat, n: nat) returns (t: State)
    requires Inv(s) && pid < MAX_PROCESSES && n > 0 && start + n <= MAX_PAGES_PER_PROC
    requires HasFree(s)
    ensures Inv(t) && MapRun(s, pid, start, n).0 == MapRun(t, pid, start + 1, n - 1).0
  {
    var u := TakeFrame(s, pid);
    TakeKeepsInv(s, pid);
    MapKeepsInv(u, pid, start, FirstFree(s.frames));
    t := MapPage(u, pid, start, FirstFree(s.frames));
  }

  // ---------- pagedFree ----------

  /** How many pages a free of the address covers: the maximal valid run from its page on. */
  function FreedPages(t: PageTable, pid: u8, addr: u32): nat
    requires Mapped(t, pid, addr)
  {
    RunLength(t[pid], PageOf(addr))
  }

  // ---------- pagedMalloc ----------

  /** The requests that get as far as the search. */
  predicate Requestable(pid: u8, size: u16) {
    pid < MAX_PROCESSES && size > 0 && PagesFor(size) <= MAX_PAGES_PER_PROC
  }

  /** Where the request would go, or MAX_PAGES_PER_PROC. */
  function Place(t: PageTable, pid: u8, size: u16): nat
    requires Requestable(pid, size)
  {
    FirstFit(t[pid], PagesFor(size))
  }

  /** Exactly the requests that end with their pages mapped. */
  predicate Granted(s: State, pid: u8, size: u16) {
    Requestable(pid, size) && Place(s.table, pid, size) < MAX_PAGES_PER_PROC && PagesFor(size) <= FreeCount(s.frames)
  }

  ghost predicate SameValid(t: PageTable, u: PageTable) {
    forall p, l | 0 <= p < MAX_PROCESSES && 0 <= l < MAX_PAGES_PER_PROC ::
      u[p][l].valid == t[p][l].valid && (t[p][l].valid ==> u[p][l] == t[p][l])
  }

  /** The least start whatever, or none at all: the search is first-fit and complete. */
  lemma PlaceIsFirstFit(t: PageTable, pid: u8, size: u16)
    requires Requestable(pid, size)
    ensures var n, start := PagesFor(size), Place(t, pid, size);
      && (start < MAX_PAGES_PER_PROC <==> exists k: nat :: Fits(t[pid], k, n))
      && (start < MAX_PAGES_PER_PROC ==> Fits(t[pid], start, n))
      && (forall k: nat | Fits(t[pid], k, n) :: start <= k)
      && (n - 1) * PAGE_SIZE < size <= n * PAGE_SIZE
    ensures forall k: nat :: Fits(t[pid], k, PagesFor(size)) <==>
      k + PagesFor(size) <= MAX_PAGES_PER_PROC && forall l | k <= l < k + PagesFor(size) :: !t[pid][l].valid
  {
  }

  /** Allocation never writes back and leaves every line as it is, even when it has to roll back. */
  lemma MallocRedundant(s: State, pid: u8, size: u16)
    ensures Code.PagedMalloc(s, pid, size) == PagedMalloc(s, pid, size)
    ensures PagedMalloc(s, pid, size).0.cache == s.cache && PagedMalloc(s, pid, size).0.mem == s.mem
  {
    hide MapRun, UnmapRun, Code.UnmapRun;
    if Requestable(pid, size) && Place(s.table, pid, size) < MAX_PAGES_PER_PROC {
      var start, m := Place(s.table, pid, size), MapRun(s, pid, Place(s.table, pid, size), PagesFor(size));
      MapRunPages(s, pid, start, PagesFor(size));
      UnmapCleanRun(m.0, pid, start, m.1);
    }
  }

  /** A granted request maps its run to distinct frames that were free, and touches nothing else. */
  lemma MallocGranted(s: State, pid: u8, size: u16)
    requires Granted(s, pid, size)
    ensures var n, start, r := PagesFor(size), Place(s.table, pid, size), Code.PagedMalloc(s, pid, size);
      && r.1 == start * PAGE_SIZE && r == PagedMalloc(s, pid, size)
      && Fits(s.table[pid], start, n)
      && FreshRun(s.frames, r.0.table[pid], start, n)
      && SameOutside(s.table, r.0.table, pid, start, n)
      && BusyKept(s.frames, r.0.frames)
      && r.0.mem == s.mem && r.0.cache == s.cache
      && FreeCount(r.0.frames) == FreeCount(s.frames) - n
    ensures AllocInv(s) ==> AllocInv(Code.PagedMalloc(s, pid, size).0)
    ensures Exact(s.frames, s.table)
        ==> Exact(Code.PagedMalloc(s, pid, size).0.frames, Code.PagedMalloc(s, pid, size).0.table)
  {
    var n, start := PagesFor(size), Place(s.table, pid, size);
    hide MapRun, AllocInv, Exact, FreeCount, FreshRun, BusyKept, Code.PagedMalloc;
    MallocRedundant(s, pid, size);
    MapRunCounts(s, pid, start, n);
    MapRunPages(s, pid, start, n);
    if AllocInv(s) { MapRunKeepsAllocInv(s, pid, start, n); }
    if Exact(s.frames, s.table) { MapRunKeepsExact(s, pid, start, n); }
  }

  /** The free frames a refused request leaves: none, if it got as far as taking some. */
  function LeftOver(s: State, pid: u8, size: u16): nat {
    if Requestable(pid, size) && Place(s.table, pid, size) < MAX_PAGES_PER_PROC then 0 else FreeCount(s.frames)
  }

  /** A refused request returns 0 and leaves every page as it was; one refused for want of frames uses them up. */
  lemma MallocRefused(s: State, pid: u8, size: u16)
    requires !Granted(s, pid, size)
    ensures var r := Code.PagedMalloc(s, pid, size);
      && r.1 == 0 && r == PagedMalloc(s, pid, size)
      && r.0.mem == s.mem && r.0.cache == s.cache && SameValid(s.table, r.0.table)
    ensures AllocInv(s) ==> AllocInv(Code.PagedMalloc(s, pid, size).0)
    ensures Exact(s.frames, s.table) ==>
      FreeCount(Code.PagedMalloc(s, pid, size).0.frames) == LeftOver(s, pid, size)
  {
    hide AllocInv, MapRun, UnmapRun, FreeCount, FreshRun, BusyKept, SameValid, Exact, Code.PagedMalloc;
    SameValidRefl(s.table);
    MallocRedundant(s, pid, size);
    if Requestable(pid, size) && Place(s.table, pid, size) < MAX_PAGES_PER_PROC {
      var n, start := PagesFor(size), Place(s.table, pid, size);
      var m := MapRun(s, pid, start, n);
      MapRunCounts(s, pid, start, n);
      MapRunPages(s, pid, start, n);
      UnmapRunEffect(m.0, pid, start, m.1);
      RollbackSameValid(s.table, m.0.table, UnmapRun(m.0, pid, start, m.1).table, pid, start, m.1);
      if AllocInv(s) {
        MapRunKeepsAllocInv(s, pid, start, n);
        UnmapRunKeepsAllocInv(m.0, pid, start, m.1);
      }
      if Exact(s.frames, s.table) {
        MapRunKeepsExact(s, pid, start, n);
        UnmapRunKeepsFrames(m.0, pid, start, m.1);
      }
    }
  }

  lemma SameValidRefl(t: PageTable)
    ensures SameValid(t, t)
  {
  }

  lemma RollbackSameValid(t: PageTable, u: PageTable, v: PageTable, pid: nat, start: nat, n: nat)
    requires pid < MAX_PROCESSES && start + n <= MAX_PAGES_PER_PROC
    requires SameOutside(t, u, pid, start, n) && SameOutside(u, v, pid, start, n)
    requires forall l | start <= l < start + n :: !t[pid][l].valid && !v[pid][l].valid
    ensures SameValid(t, v)
  {
    forall p, l | 0 <= p < MAX_PROCESSES && 0 <= l < MAX_PAGES_PER_PROC
      ensures v[p][l].valid == t[p][l].valid && (t[p][l].valid ==> v[p][l] == t[p][l])
    {
      if p != pid || l < start || l >= start + n {
        assert u[p][l] == t[p][l] && v[p][l] == u[p][l];
      }
    }
  }

  /** A zero result means refusal, as callers read it, unless the first n pages of the process are free. */
  lemma MallocReportsHonestly(s: State, pid: u8, size: u16)
    ensures (Code.PagedMalloc(s, pid, size).1 != 0 <==> Granted(s, pid, size))
       <==> !(Granted(s, pid, size) && Fits(s.table[pid], 0, PagesFor(size)))
  {
    hide Code.PagedMalloc;
    if Granted(s, pid, size) {
      MallocGranted(s, pid, size);
      PlaceIsFirstFit(s.table, pid, size);
    } else {
      MallocRefused(s, pid, size);
    }
  }
}
