/** Short runs from initialisation on which the code does not do what its callers expect. */
module FailingRuns {
  import opened Words
  import opened Sram
  import opened CacheSets
  import opened PageCacheModel
  import opened PageCacheInvariants
  import opened PageCacheSteps
  import opened PagedAllocator
  import opened PagedViews
  import opened PagedLifetimes
  import opened Writebacks
  import opened PageCacheRuns
  import opened AllocatorRuns

  lemma RunNext(s: State, ops: seq<Op>, op: Op)
    ensures Run(s, ops + [op]) == Step(Run(s, ops), op)
  {
    assert (ops + [op])[..|ops|] == ops;
    hide Step;
  }

  lemma RunOne(s: State, op: Op)
    ensures Run(s, [op]) == Step(s, op)
  {
    RunNext(s, [], op);
    assert [] + [op] == [op];
  }

  // ---------- A result of 0 ----------

  lemma PlaceIs(t: PageTable, size: u16, start: nat)
    requires Requestable(0, size) && start < MAX_PAGES_PER_PROC && Fits(t[0], start, PagesFor(size))
    requires forall i | 0 <= i < start :: !Fits(t[0], i, PagesFor(size))
    ensures Place(t, 0, size) == start
  {
  }

  lemma MapRunOnce(s: State, start: nat, n: nat)
    requires n == 1 && start < MAX_PAGES_PER_PROC && s.frames[0].status == PageFree
    ensures MapRun(s, 0, start, n).1 == 1 && MapRun(s, 0, start, n).0.table[0][start].physicalPage == 0
  {
    assert FirstFree(s.frames) == 0;
    var t := MapFresh(s, 0, start);
    MapRunStop(t, 0, start + 1, n - 1);
  }

  /** With no page of process 0 valid and enough frames, a request gets the first n pages, and the answer 0. */
  lemma GrantAtZero(i: State, size: u16) returns (s: State)
    requires AllocInv(i) && 0 < size <= MAX_PAGES_PER_PROC * PAGE_SIZE && FreeCount(i.frames) >= PagesFor(size)
    requires forall l | 0 <= l < MAX_PAGES_PER_PROC :: !i.table[0][l].valid
    ensures s == Code.PagedMalloc(i, 0, size).0 && AllocInv(s) && s.mem == i.mem && Granted(i, 0, size)
    ensures Code.PagedMalloc(i, 0, size).1 == 0
    ensures PagesFor(size) == 1 && i.frames[0].status == PageFree ==> s.table[0][0].physicalPage == 0
    ensures forall l | 0 <= l < MAX_PAGES_PER_PROC :: s.table[0][l].valid <==> l < PagesFor(size)
    ensures FreeCount(s.frames) == FreeCount(i.frames) - PagesFor(size)
  {
    hide AllocInv, FreeCount, FreshRun, MapRun;
    assert Fits(i.table[0], 0, PagesFor(size));
    PlaceIs(i.table, size, 0);
    MallocGranted(i, 0, size);
    MapRunCounts(i, 0, 0, PagesFor(size));
    s := PagedMalloc(i, 0, size).0;
    FreshRunValid(i.frames, s.table[0], PagesFor(size));
    if PagesFor(size) == 1 && i.frames[0].status == PageFree {
      MapRunOnce(i, 0, PagesFor(size));
    }
  }

  /** The first call of all. */
  lemma FirstMalloc(mem: Memory, size: u16) returns (s: State)
    requires 0 < size <= MAX_PAGES_PER_PROC * PAGE_SIZE
    ensures s == Run(Initial(mem), [Malloc(0, size)]) && AllocInv(s) && s.mem == mem
    ensures forall l | 0 <= l < MAX_PAGES_PER_PROC :: s.table[0][l].valid <==> l < PagesFor(size)
    ensures FreeCount(s.frames) == MAX_PHYSICAL_PAGES - PagesFor(size)
    ensures Granted(Initial(mem), 0, size) && Result(Initial(mem), Malloc(0, size)) == 0
    ensures PagesFor(size) == 1 ==> s.table[0][0].physicalPage == 0
  {
    var i := InitialAllFree(mem);
    hide AllocInv, FreeCount, MapRun, Initial, Granted, PagesFor, Run, Code.PagedMalloc;
    RunOne(i, Malloc(0, size));
    PagesBound(size);
    s := GrantAtZero(i, size);
  }

  lemma PagesBound(size: u16)
    requires size <= MAX_PAGES_PER_PROC * PAGE_SIZE
    ensures PagesFor(size) <= MAX_PAGES_PER_PROC
  {
  }

  lemma InitialAllFree(mem: Memory) returns (i: State)
    ensures i == Initial(mem) && AllocInv(i) && i.mem == mem && FreeCount(i.frames) == MAX_PHYSICAL_PAGES
    ensures i.frames[0].status == PageFree
    ensures forall p, l | 0 <= p < MAX_PROCESSES && 0 <= l < MAX_PAGES_PER_PROC :: !i.table[p][l].valid
  {
    i := Initial(mem);
    InitialInv(mem);
    AllFree(i.frames);
    hide AllocInv, FreeCount;
    assert |i.frames| == MAX_PHYSICAL_PAGES;
  }

  lemma FreshRunValid(frames: FrameTable, row: PageRow, n: nat)
    requires FreshRun(frames, row, 0, n)
    ensures forall l | 0 <= l < n :: row[l].valid
  {
  }

  /** The state after process 0 got one page as the first call of all: page 0 on frame 0. */
  lemma OnePage(mem: Memory) returns (s: State)
    ensures s == Run(Initial(mem), [Malloc(0, 256)]) && AllocInv(s) && s.mem == mem
    ensures forall a: u32 | a < PAGE_SIZE :: Mapped(s.table, 0, a) && Translate(s.table, 0, a) == a
    ensures Granted(Initial(mem), 0, 256) && Result(Initial(mem), Malloc(0, 256)) == 0
  {
    hide AllocInv, Initial, Run, Granted, Result, PageOf, Translate, Mapped, FreeCount;
    s := FirstMalloc(mem, 256);
    PageZero(s);
  }

  lemma PageZero(s: State)
    requires s.table[0][0].valid && s.table[0][0].physicalPage == 0
    ensures forall a: u32 | a < PAGE_SIZE :: Mapped(s.table, 0, a) && Translate(s.table, 0, a) == a
  {
  }

  /** The first request of any process after initialisation is granted and answered with 0, the answer of a refusal. */
  lemma FirstGrantReadsAsRefusal(mem: Memory, pid: u8, size: u16)
    requires pid < MAX_PROCESSES && 0 < size <= MAX_PAGES_PER_PROC * PAGE_SIZE
    ensures Granted(Initial(mem), pid, size) && Result(Initial(mem), Malloc(pid, size)) == 0
  {
    var i := InitialAllFree(mem);
    PagesBound(size);
    assert Fits(i.table[pid], 0, PagesFor(size));
    hide AllocInv, FreeCount, Initial, Code.PagedMalloc, FirstFit;
    PlaceIsFirstFit(i.table, pid, size);
    MallocReportsHonestly(i, pid, size);
  }

  // ---------- Dropping a line by an address inside it ----------

  /** A cached write leaves its line dirty. */
  lemma WriteDirties(s: State, pid: u8, addr: u32, b: u8)
    requires Coherent(s.cache, s.mem) && Mapped(s.table, pid, addr)
    ensures DirtyHit(WriteByte(s, pid, addr, b).cache, Translate(s.table, pid, addr))
  {
    var r, pa := WriteByte(s, pid, addr, b), Translate(s.table, pid, addr);
    var tag := pa / CACHE_LINE_SIZE;
    var k := tag % CACHE_NUM_SETS;
    WriteEffect(s, pid, addr, b);
    assert SetCoherent(r.cache[k], k, r.mem);
    assert r.cache[k] == StoreCache(s.cache, s.mem, pa, Tick(s.clock), b)[k];
    var w := Slot(s.cache[k], tag);
    assert Holds(r.cache[k][w], tag) && r.cache[k][w].dirty;
    assert Lookup(r.cache[k], tag) == w;
  }

  /** The state after one byte of the first page is written through the cache. */
  lemma OneWrite(mem: Memory, a: u32, b: u8) returns (s: State)
    requires a < PAGE_SIZE
    ensures s == Run(Initial(mem), [Malloc(0, 256), Write(0, a, b)]) && AllocInv(s) && s.mem == mem[a := b]
    ensures forall x: u32 | x < PAGE_SIZE :: Mapped(s.table, 0, x) && Translate(s.table, 0, x) == x
    ensures DirtyHit(s.cache, a)
  {
    hide AllocInv, DirtyHit, Initial, Run, Step, Mapped, Translate, Granted, Result;
    var t := OnePage(mem);
    assert [Malloc(0, 256)] + [Write(0, a, b)] == [Malloc(0, 256), Write(0, a, b)];
    RunNext(Initial(mem), [Malloc(0, 256)], Write(0, a, b));
    s := WriteOnPage(t, a, b);
  }

  lemma WriteOnPage(t: State, a: u32, b: u8) returns (s: State)
    requires AllocInv(t) && a < PAGE_SIZE
    requires forall x: u32 | x < PAGE_SIZE :: Mapped(t.table, 0, x) && Translate(t.table, 0, x) == x
    ensures s == Step(t, Write(0, a, b)) && AllocInv(s) && s.mem == t.mem[a := b]
    ensures forall x: u32 | x < PAGE_SIZE :: Mapped(s.table, 0, x) && Translate(s.table, 0, x) == x
    ensures DirtyHit(s.cache, a)
  {
    hide AllocInv, WriteByte, Code.WriteByte, DirtyHit, Mapped, Translate, Coherent, SameMap;
    AllocInvSound(t);
    AccessRedundant(t, 0, a, b);
    WriteKeepsAllocInv(t, 0, a, b);
    WriteEffect(t, 0, a, b);
    WriteDirties(t, 0, a, b);
    s := WriteByte(t, 0, a, b);
    forall x: u32 | x < PAGE_SIZE
      ensures Mapped(s.table, 0, x) && Translate(s.table, 0, x) == x
    {
      SameMapMapped(t.table, s.table, 0, x);
    }
  }

  lemma SameLineHit(c: Cache, a: u32, b: u32)
    requires DirtyHit(c, a) && a / CACHE_LINE_SIZE == b / CACHE_LINE_SIZE
    ensures DirtyHit(c, b)
  {
  }

  /** Where the bytes of a dirty line go when it is dropped by the address one past its start. */
  lemma DropOneOff(s: State)
    requires Coherent(s.cache, s.mem) && DirtyHit(s.cache, 1)
    ensures forall x | 1 <= x <= CACHE_LINE_SIZE :: InvalidateLine(s, 1).mem[x] == s.mem[x - 1]
  {
    DirtyHitCoherent(s, 1);
  }

  /** Whatever memory holds: a byte written to address 0 also ends up at address 1 when its line is dropped by
      address 1. */
  lemma MisplacedWriteBack(mem: Memory, b: u8)
    requires b != mem[1]
    ensures var ops := [Malloc(0, 256), Write(0, 0, b), DropLine(1)];
      AllocatorRun(ops) && Run(Initial(mem), ops).mem[1] == b
  {
    var s := OneWrite(mem, 0, b);
    hide AllocInv, DirtyHit, InvalidateLine, Initial;
    var before := [Malloc(0, 256), Write(0, 0, b)];
    assert before + [DropLine(1)] == [Malloc(0, 256), Write(0, 0, b), DropLine(1)];
    RunNext(Initial(mem), before, DropLine(1));
    AllocInvSound(s);
    SameLineHit(s.cache, 0, 1);
    DropOneOff(s);
  }

  /** The line of the next 32 bytes is cached after a read there, and the first line is dirty still. */
  lemma ReadNextLine(s: State)
    requires Coherent(s.cache, s.mem) && DirtyHit(s.cache, 31)
    requires Mapped(s.table, 0, 32) && Translate(s.table, 0, 32) == 32
    ensures var r := ReadByte(s, 0, 32);
      Coherent(r.cache, r.mem) && r.mem == s.mem && SameMap(s.table, r.table)
      && DirtyHit(r.cache, 1) && Resident(r.cache, 1)
  {
    ReadEffect(s, 0, 32);
    var r := ReadByte(s, 0, 32);
    var c, w := s.cache[1], Slot(s.cache[1], 1);
    assert r.cache == AccessCache(s.cache, s.mem, 32, Tick(s.clock));
    assert r.cache[0] == s.cache[0] && Holds(r.cache[1][w], 1);
  }

  /** A read of a resident line is served from it. */
  lemma HitServes(s: State, pid: u8, addr: u32)
    requires Mapped(s.table, pid, addr) && Resident(s.cache, Translate(s.table, pid, addr) / CACHE_LINE_SIZE)
    ensures var pa := Translate(s.table, pid, addr);
      Code.CachedByte(s, pid, addr) == LineOf(s.cache, pa)[pa % CACHE_LINE_SIZE]
  {
    var pa := Translate(s.table, pid, addr);
    var k := pa / CACHE_LINE_SIZE % CACHE_NUM_SETS;
    assert Code.RoomMade(s, pid, addr) == s;
    assert Slot(s.cache[k], pa / CACHE_LINE_SIZE) == Lookup(s.cache[k], pa / CACHE_LINE_SIZE);
    hide Line, Code.WriteBack;
  }

  /** A read that follows is served from the cached line, which does not know what spilled over. */
  lemma DropLeavesNext(s: State)
    requires Coherent(s.cache, s.mem) && DirtyHit(s.cache, 1) && Resident(s.cache, 1)
    requires Mapped(s.table, 0, 32) && Translate(s.table, 0, 32) == 32
    ensures Code.CachedByte(InvalidateLine(s, 1), 0, 32) == s.mem[32]
  {
    hide Code.CachedByte, Overwrite, Lookup;
    var r := InvalidateLine(s, 1);
    assert SetCoherent(s.cache[1], 1, s.mem);
    assert r.cache[1] == s.cache[1] && r.table == s.table;
    HitServes(r, 0, 32);
  }

  /** Whatever memory holds: dropping a dirty line by an address inside it can leave the next line stale, so that a
      cached read no longer returns what memory holds. */
  lemma StaleRead(mem: Memory, b: u8)
    requires b != mem[32]
    ensures var ops := [Malloc(0, 256), Write(0, 31, b), Read(0, 32), DropLine(1)];
      var s := Run(Initial(mem), ops);
      AllocatorRun(ops) && Code.CachedByte(s, 0, 32) == mem[32] && Peek(s, 0, 32) == b
  {
    var s := OneWrite(mem, 31, b);
    var i, two := Initial(mem), [Malloc(0, 256), Write(0, 31, b)];
    var three := two + [Read(0, 32)];
    assert three + [DropLine(1)] == [Malloc(0, 256), Write(0, 31, b), Read(0, 32), DropLine(1)];
    hide AllocInv, DirtyHit, Initial, Run, Step, PageOf;
    RunNext(i, two, Read(0, 32));
    RunNext(i, three, DropLine(1));
    var t := ReadThenDrop(s);
    assert Run(i, three + [DropLine(1)]) == t;
  }

  lemma ReadThenDrop(s: State) returns (r: State)
    requires AllocInv(s) && DirtyHit(s.cache, 31) && Mapped(s.table, 0, 32) && Translate(s.table, 0, 32) == 32
    ensures r == Step(Step(s, Read(0, 32)), DropLine(1))
    ensures Code.CachedByte(r, 0, 32) == s.mem[32] && Peek(r, 0, 32) == s.mem[31]
  {
    hide AllocInv, Coherent, ReadByte, Code.ReadByte, Code.CachedByte, DirtyHit, Resident, InvalidateLine;
    AllocInvSound(s);
    AccessRedundant(s, 0, 32, 0);
    ReadNextLine(s);
    var t := ReadByte(s, 0, 32);
    SameMapMapped(s.table, t.table, 0, 32);
    DropOneOff(t);
    DropLeavesNext(t);
    DropKeepsTable(t);
    r := InvalidateLine(t, 1);
  }

  lemma DropKeepsTable(s: State)
    ensures InvalidateLine(s, 1).table == s.table
  {
  }

  // ---------- Gaps in the page table ----------

  /** The state after process 0 got four pages and the two in the middle were unmapped one by one. */
  lemma Gapped(mem: Memory) returns (s: State)
    ensures s == Run(Initial(mem), [Malloc(0, 1024), Unmap(0, 1), Unmap(0, 2)]) && AllocInv(s)
    ensures forall l | 0 <= l < MAX_PAGES_PER_PROC :: s.table[0][l].valid <==> l == 0 || l == 3
    ensures FreeCount(s.frames) == MAX_PHYSICAL_PAGES - 4
  {
    var i := Initial(mem);
    var t := FirstMalloc(mem, 1024);
    hide AllocInv, Initial, FreeCount, PagedMalloc, Code.PagedMalloc, Run, MapRun, Granted, Result;
    RunNext(i, [Malloc(0, 1024)], Unmap(0, 1));
    RunNext(i, [Malloc(0, 1024)] + [Unmap(0, 1)], Unmap(0, 2));
    assert [Malloc(0, 1024)] + [Unmap(0, 1)] + [Unmap(0, 2)] == [Malloc(0, 1024), Unmap(0, 1), Unmap(0, 2)];
    var u := UnmapOne(t, 1);
    s := UnmapOne(u, 2);
  }

  lemma UnmapOne(s: State, lp: u16) returns (r: State)
    requires AllocInv(s) && lp < MAX_PAGES_PER_PROC
    ensures r == Step(s, Unmap(0, lp)) && AllocInv(r) && FreeCount(r.frames) == FreeCount(s.frames)
    ensures forall l | 0 <= l < MAX_PAGES_PER_PROC :: r.table[0][l].valid <==> s.table[0][l].valid && l != lp
  {
    UnmapKeepsAllocInv(s, 0, lp);
    UnmapKeepsFrames(s, 0, lp);
    AllocInvSound(s);
    StepRedundant(s, Unmap(0, lp));
    r := UnmapPage(s, 0, lp);
  }

  lemma GrowInGap(s: State, oldAddr: u32, size: u16)
    requires AllocInv(s) && FreeCount(s.frames) >= 2 && oldAddr == 768 && size == 512
    requires forall l | 0 <= l < MAX_PAGES_PER_PROC :: s.table[0][l].valid <==> l == 0 || l == 3
    ensures var r := Code.PagedRealloc(s, 0, oldAddr, size);
      && Grows(s.table, 0, oldAddr, size) && Granted(s, 0, size) && r.1 == 256
      && r.0.table[0][1].valid && r.0.table[0][2].valid && !r.0.table[0][3].valid
  {
    hide AllocInv, Code.PagedRealloc, FreeCount, FirstFit;
    assert s.table[0][0].valid;
    RunLengthIs(s.table[0], 3, 1);
    hide RunLength;
    assert Fits(s.table[0], 1, PagesFor(size)) && !Fits(s.table[0], 0, PagesFor(size));
    PlaceIs(s.table, size, 1);
    ReallocKeepsBlockIff(s, 0, oldAddr, size);
  }

  /** With a gap, which takes raw page-table calls, growing works: the block moves to page 1 and is kept. */
  lemma GrowKeepsBlockAfterRawCalls(mem: Memory)
    ensures var s := Run(Initial(mem), [Malloc(0, 1024), Unmap(0, 1), Unmap(0, 2)]);
      var r := Code.PagedRealloc(s, 0, 768, 512);
      && Grows(s.table, 0, 768, 512) && Granted(s, 0, 512)
      && r.1 == 256 && Mapped(r.0.table, 0, 256) && Mapped(r.0.table, 0, 512) && !Mapped(r.0.table, 0, 768)
  {
    hide AllocInv, Code.PagedRealloc, FreeCount, Run, Initial, Grows, Granted;
    var s := Gapped(mem);
    GrowInGap(s, 768, 512);
  }

  lemma FreeInGap(s: State, size: u16, addr: u32)
    requires AllocInv(s) && FreeCount(s.frames) >= 2 && size == 512 && addr == 256
    requires forall l | 0 <= l < MAX_PAGES_PER_PROC :: s.table[0][l].valid <==> l == 0 || l == 3
    ensures var m := Code.PagedMalloc(s, 0, size);
      m.1 == addr && !Code.PagedFree(m.0, 0, addr).table[0][3].valid
  {
    hide AllocInv, Code.PagedMalloc, Code.PagedFree, FreeCount, FirstFit, FreshRun;
    assert s.table[0][0].valid;
    assert Fits(s.table[0], 1, PagesFor(size)) && !Fits(s.table[0], 0, PagesFor(size));
    PlaceIs(s.table, size, 1);
    MallocGranted(s, 0, size);
    var m := Code.PagedMalloc(s, 0, size).0;
    FreshRunFrom(s.frames, m.table[0], 1, PagesFor(size));
    assert m.table[0][3] == s.table[0][3];
    FreeFromOne(m, addr);
  }

  lemma FreshRunFrom(frames: FrameTable, row: PageRow, start: nat, n: nat)
    requires FreshRun(frames, row, start, n)
    ensures forall l | start <= l < start + n :: row[l].valid
  {
  }

  lemma FreeFromOne(s: State, addr: u32)
    requires addr == 256 && s.table[0][1].valid && s.table[0][2].valid && s.table[0][3].valid
    ensures !Code.PagedFree(s, 0, addr).table[0][3].valid
  {
    hide Code.PagedFree, RunLength, PageOf, Mapped, SameOutside;
    PageOne();
    FreePagesFrom(s, 0, addr);
  }

  /** A free takes every page of a valid run along. */
  lemma FreePagesFrom(s: State, pid: u8, addr: u32)
    requires pid < MAX_PROCESSES && addr != 0 && PageOf(addr) + 2 < MAX_PAGES_PER_PROC
    requires s.table[pid][PageOf(addr)].valid && s.table[pid][PageOf(addr) + 1].valid
    requires s.table[pid][PageOf(addr) + 2].valid
    ensures !Code.PagedFree(s, pid, addr).table[pid][PageOf(addr) + 2].valid
  {
    hide Code.PagedFree, PageOf;
    RunAtLeast(s.table[pid], PageOf(addr), 3);
    FreeOutcome(s, pid, addr);
  }

  lemma PageOne()
    ensures PageOf(256) == 1
  {
  }

  lemma RunAtLeast(row: PageRow, start: nat, n: nat)
    requires start + n <= MAX_PAGES_PER_PROC && forall l | start <= l < start + n :: row[l].valid
    ensures RunLength(row, start) >= n
  {
    var k := RunLength(row, start);
  }

  /** Likewise only then can freeing a block take its neighbour along: the two pages handed out lie in front of page 3,
      which is lost with them. */
  lemma FreeTakesNeighbourAfterRawCalls(mem: Memory)
    ensures var s := Run(Initial(mem), [Malloc(0, 1024), Unmap(0, 1), Unmap(0, 2)]);
      var m := Code.PagedMalloc(s, 0, 512);
      && m.1 == 256 && s.table[0][3].valid && !Code.PagedFree(m.0, 0, 256).table[0][3].valid
  {
    hide AllocInv, Code.PagedMalloc, Code.PagedFree, FreeCount, Run, Initial;
    var s := Gapped(mem);
    FreeInGap(s, 512, 256);
  }

  // ---------- Running out of frames ----------

  /** One process takes a page, then n times takes its other fifteen pages and frees them again. */
  function Draining(n: nat): seq<Op> {
    if n == 0 then [Malloc(0, 256)] else Draining(n - 1) + [Malloc(0, 3840)] + [Free(0, 256)]
  }

  predicate OnlyFirstPage(row: PageRow) { forall l | 0 <= l < MAX_PAGES_PER_PROC :: row[l].valid <==> l == 0 }

  lemma DrainMalloc(s: State, size: u16)
    requires OnlyFirstPage(s.table[0]) && size == 3840
    ensures FreeCount(s.frames) >= 15 ==> Code.PagedMalloc(s, 0, size).1 == 256
    ensures FreeCount(s.frames) >= 15 ==> BoundedAbove(s.table[0], Place(s.table, 0, size) + PagesFor(size))
    ensures FreeCount(s.frames) < 15 ==> !Granted(s, 0, size) && LeftOver(s, 0, size) == 0
  {
    hide FreeCount, Code.PagedMalloc, FirstFit;
    assert s.table[0][0].valid;
    assert Fits(s.table[0], 1, PagesFor(size)) && !Fits(s.table[0], 0, PagesFor(size));
    PlaceIs(s.table, size, 1);
    if FreeCount(s.frames) >= 15 {
      MallocGranted(s, 0, size);
    }
  }

  lemma DrainRound(s: State, size: u16, addr: u32) returns (r: State)
    requires AllocSound(s) && OnlyFirstPage(s.table[0]) && size == 3840 && addr == 256
    ensures r == Step(Step(s, Malloc(0, size)), Free(0, addr)) && AllocSound(r) && OnlyFirstPage(r.table[0])
    ensures FreeCount(r.frames) == if FreeCount(s.frames) >= 15 then FreeCount(s.frames) - 15 else 0
  {
    hide AllocSound, FreeCount, Code.PagedMalloc, Code.PagedFree, Place, Requestable, Granted, Exact;
    StepKeepsAllocSound(s, Malloc(0, size));
    StepKeepsAllocSound(Step(s, Malloc(0, size)), Free(0, addr));
    AllocSoundExact(s);
    var m := Code.PagedMalloc(s, 0, size);
    r := Code.PagedFree(m.0, 0, addr);
    DrainMalloc(s, size);
    if FreeCount(s.frames) >= 15 {
      MallocFreeRoundTrip(s, 0, size);
      assert r == Code.PagedFree(m.0, 0, m.1);
      SameValidRow(s.table, r.table);
    } else {
      MallocRefused(s, 0, size);
      SameValidRow(s.table, m.0.table);
      FreeOfNothing(m.0, addr);
    }
  }

  lemma SameValidRow(t: PageTable, u: PageTable)
    requires SameValid(t, u) && OnlyFirstPage(t[0])
    ensures OnlyFirstPage(u[0])
  {
  }

  lemma FreeOfNothing(s: State, addr: u32)
    requires OnlyFirstPage(s.table[0]) && addr == 256
    ensures Code.PagedFree(s, 0, addr) == s
  {
    hide Code.PagedFree;
    FreeOutcome(s, 0, addr);
  }

  lemma {:induction false} Drained(mem: Memory, n: nat) returns (s: State)
    ensures s == Run(Initial(mem), Draining(n)) && AllocSound(s) && OnlyFirstPage(s.table[0])
    ensures AllocatorRun(Draining(n)) && NoInit(Draining(n))
    ensures FreeCount(s.frames) == if 511 >= 15 * n then 511 - 15 * n else 0
    decreases n
  {
    hide AllocInv, AllocSound, FreeCount, Run, Step, Initial;
    if n == 0 {
      s := FirstMalloc(mem, 256);
      AllocInvSound(s);
    } else {
      var before := Draining(n - 1);
      var t := Drained(mem, n - 1);
      RunNext(Initial(mem), before, Malloc(0, 3840));
      RunNext(Initial(mem), before + [Malloc(0, 3840)], Free(0, 256));
      s := DrainRound(t, 3840, 256);
    }
  }

  /** Freeing everything it can, one process uses up all frames in 35 rounds; from then on every request of every
      process is refused, whatever is freed. */
  lemma FramesRunOut(mem: Memory, ops: seq<Op>, pid: u8, size: u16)
    requires AllocatorRun(ops) && NoInit(ops)
    ensures AllocatorRun(Draining(35)) && FreeCount(Run(Initial(mem), Draining(35)).frames) == 0
    ensures Result(Run(Run(Initial(mem), Draining(35)), ops), Malloc(pid, size)) == 0
  {
    hide AllocSound, FreeCount, Run, Initial, Draining, Code.PagedMalloc;
    var s := Drained(mem, 35);
    ExhaustionIsForever(s, ops, pid, size);
  }
}
