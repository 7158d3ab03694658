/** The page-cache manager as a state machine on values, as if no line were ever written back: what each public call
    does to the whole state while the cache agrees with memory. */
module PageCacheModel {
  import opened Words
  import opened Sram
  import opened CacheSets

  const PAGE_SIZE := 256
  const MAX_PHYSICAL_PAGES := 512
  const MAX_PAGES_PER_PROC := 16
  const MAX_PROCESSES := 4
  const LINES_PER_PAGE := 8
  const FAULT: u32 := 0xFFFF_FFFF

  datatype PageStatus = PageFree | PageAllocated | PageMapped

  datatype Frame = Frame(status: PageStatus, owner: u8, refCount: u16, accessTime: u32)

  const FREE_FRAME := Frame(PageFree, 0, 0, 0)

  type FrameIndex = f: nat | f < MAX_PHYSICAL_PAGES

  datatype Pte = Pte(physicalPage: FrameIndex, valid: bool, dirty: bool, accessCount: u16, lastAccess: u32)

  const EMPTY_PTE := Pte(0, false, false, 0, 0)

  type FrameTable = f: seq<Frame> | |f| == MAX_PHYSICAL_PAGES witness seq(MAX_PHYSICAL_PAGES, _ => FREE_FRAME)

  type PageRow = r: seq<Pte> | |r| == MAX_PAGES_PER_PROC witness seq(MAX_PAGES_PER_PROC, _ => EMPTY_PTE)

  type PageTable = t: seq<PageRow> | |t| == MAX_PROCESSES
    witness seq(MAX_PROCESSES, _ => seq(MAX_PAGES_PER_PROC, _ => EMPTY_PTE))

  datatype State = State(frames: FrameTable, table: PageTable, cache: Cache, mem: Memory, clock: u32)

  /** What the constructor and `init` leave; they do not touch the external memory. */
  function Initial(mem: Memory): State {
    State(seq(MAX_PHYSICAL_PAGES, _ => FREE_FRAME),
          seq(MAX_PROCESSES, _ => seq(MAX_PAGES_PER_PROC, _ => EMPTY_PTE)),
          seq(CACHE_NUM_SETS, _ => seq(CACHE_NUM_WAYS, _ => EMPTY_LINE)),
          mem, 0)
  }

  function SetPte(t: PageTable, pid: nat, lp: nat, e: Pte): PageTable
    requires pid < MAX_PROCESSES && lp < MAX_PAGES_PER_PROC
  {
    t[pid := t[pid][lp := e]]
  }

  // ---------- Translation ----------

  /** The page number as the code computes it: cut to 16 bits. */
  function PageOf(addr: u32): u16 { Wrap16(addr / PAGE_SIZE) }

  /** The address i bytes on, in 32-bit arithmetic. */
  function At(addr: u32, i: nat): u32 { Wrap32(addr + i) }

  predicate InTable(pid: u8, lp: u16) { pid < MAX_PROCESSES && lp < MAX_PAGES_PER_PROC }

  predicate ValidPage(t: PageTable, pid: u8, lp: u16) {
    InTable(pid, lp) && t[pid][lp].valid
  }

  predicate Mapped(t: PageTable, pid: u8, addr: u32) {
    ValidPage(t, pid, PageOf(addr))
  }

  function Translate(t: PageTable, pid: u8, addr: u32): (pa: u32)
    ensures pa == FAULT <==> !Mapped(t, pid, addr)
    ensures Mapped(t, pid, addr) ==> pa < SRAM_SIZE
  {
    if Mapped(t, pid, addr) then t[pid][PageOf(addr)].physicalPage * PAGE_SIZE + addr % PAGE_SIZE else FAULT
  }

  /** What a process sees at an address when there is no cache: its byte of external memory, 0 on a fault. */
  function Peek(s: State, pid: u8, addr: u32): u8 {
    if Mapped(s.table, pid, addr) then s.mem[Translate(s.table, pid, addr)] else 0
  }

  // ---------- Cached byte access ----------

  function Tick(clock: u32): u32 { Wrap32(clock + 1) }

  function Touch(s: State, pid: u8, lp: u16): State {
    if !ValidPage(s.table, pid, lp) then s
    else
      var e := s.table[pid][lp];
      s.(table := SetPte(s.table, pid, lp, e.(accessCount := Wrap16(e.accessCount + 1), lastAccess := Tick(s.clock))),
         frames := s.frames[e.physicalPage := s.frames[e.physicalPage].(accessTime := Tick(Tick(s.clock)))],
         clock := Tick(Tick(s.clock)))
  }

  function AccessCache(c: Cache, m: Memory, pa: nat, now: u32): Cache
    requires pa < SRAM_SIZE
  {
    var tag := pa / CACHE_LINE_SIZE;
    c[tag % CACHE_NUM_SETS := Access(c[tag % CACHE_NUM_SETS], tag, now, Line(m, tag))]
  }

  function StoreCache(c: Cache, m: Memory, pa: nat, now: u32, b: u8): Cache
    requires pa < SRAM_SIZE
  {
    var tag := pa / CACHE_LINE_SIZE;
    c[tag % CACHE_NUM_SETS :=
      Store(c[tag % CACHE_NUM_SETS], tag, now, Line(m, tag), pa % CACHE_LINE_SIZE, b)]
  }

  function ReadByte(s: State, pid: u8, addr: u32): State {
    if !Mapped(s.table, pid, addr) then s
    else
      var pa := Translate(s.table, pid, addr);
      Touch(s.(cache := AccessCache(s.cache, s.mem, pa, Tick(s.clock)), clock := Tick(s.clock)), pid, PageOf(addr))
  }

  function WriteByte(s: State, pid: u8, addr: u32, b: u8): State {
    if !Mapped(s.table, pid, addr) then s
    else
      var pa, lp := Translate(s.table, pid, addr), PageOf(addr);
      Touch(s.(cache := StoreCache(s.cache, s.mem, pa, Tick(s.clock), b),
               mem := s.mem[pa := b],
               table := SetPte(s.table, pid, lp, s.table[pid][lp].(dirty := true)),
               clock := Tick(s.clock)), pid, lp)
  }

  /** The byte a cached read hands out: that of the line serving the access. */
  function CachedByte(s: State, pid: u8, addr: u32): u8 {
    if !Mapped(s.table, pid, addr) then 0
    else
      var pa := Translate(s.table, pid, addr);
      var tag := pa / CACHE_LINE_SIZE;
      var cacheSet := AccessCache(s.cache, s.mem, pa, Tick(s.clock))[tag % CACHE_NUM_SETS];
      cacheSet[Slot(s.cache[tag % CACHE_NUM_SETS], tag)].data[pa % CACHE_LINE_SIZE]
  }

  /** What the process sees of an array when there is no cache. */
  function PeekArray(s: State, pid: u8, addr: u32, len: nat): seq<u8> {
    seq<u8>(len, i requires 0 <= i < len => Peek(s, pid, At(addr, i)))
  }

  // ---------- Scrubbing lines: dropping (invalidate) or cleaning (flush) ----------

  function ScrubLine(c: Cache, tag: u32, drop: bool): Cache {
    c[tag % CACHE_NUM_SETS := ScrubSet(c[tag % CACHE_NUM_SETS], tag, drop)]
  }

  /** Scrub the lines with tags from lo up to but not including hi. */
  function ScrubTags(c: Cache, lo: u32, hi: u32, drop: bool): Cache
    requires lo <= hi
    decreases hi - lo
  {
    if lo == hi then c else ScrubLine(ScrubTags(c, lo, hi - 1, drop), hi - 1, drop)
  }

  function ScrubFrame(c: Cache, f: FrameIndex, drop: bool): Cache {
    ScrubTags(c, f * LINES_PER_PAGE, f * LINES_PER_PAGE + LINES_PER_PAGE, drop)
  }

  /** Scrub the mapped pages among the first |row| of a process; cleaning also clears their dirty bits. */
  function ScrubProcess(s: State, pid: u8, drop: bool, row: seq<Pte>): State
    requires pid < MAX_PROCESSES && |row| <= MAX_PAGES_PER_PROC
  {
    if row == [] then s
    else
      var lp := |row| - 1;
      var t := ScrubProcess(s, pid, drop, row[..lp]);
      if t.table[pid][lp].valid then ScrubPage(t, pid, lp, drop) else t
  }

  function ScrubPage(s: State, pid: u8, lp: nat, drop: bool): State
    requires pid < MAX_PROCESSES && lp < MAX_PAGES_PER_PROC
  {
    var e := s.table[pid][lp];
    s.(cache := ScrubFrame(s.cache, e.physicalPage, drop),
       table := if drop then s.table else SetPte(s.table, pid, lp, e.(dirty := false)))
  }

  function InvalidateProcess(s: State, pid: u8): State {
    if pid >= MAX_PROCESSES then s else ScrubProcess(s, pid, true, s.table[pid])
  }

  function FlushProcess(s: State, pid: u8): State {
    if pid >= MAX_PROCESSES then s else ScrubProcess(s, pid, false, s.table[pid])
  }

  /** The line written back by `invalidateLine`, if any. */
  predicate DirtyHit(c: Cache, addr: u32) {
    var tag := addr / CACHE_LINE_SIZE;
    var cacheSet := c[tag % CACHE_NUM_SETS];
    Lookup(cacheSet, tag) < CACHE_NUM_WAYS && cacheSet[Lookup(cacheSet, tag)].dirty
  }

  /** `invalidateLine` writes a dirty line back at the address it was given, aligned or not. */
  function InvalidateLine(s: State, addr: u32): State {
    var tag := addr / CACHE_LINE_SIZE;
    var cacheSet := s.cache[tag % CACHE_NUM_SETS];
    s.(cache := ScrubLine(s.cache, tag, true),
       mem := if DirtyHit(s.cache, addr) then Overwrite(s.mem, addr, cacheSet[Lookup(cacheSet, tag)].data) else s.mem)
  }

  function FlushLine(line: CacheLine): CacheLine {
    line.(valid := false, dirty := line.dirty && !line.valid)
  }

  function FlushSet(c: CacheSet): CacheSet {
    seq(CACHE_NUM_WAYS, w requires 0 <= w < CACHE_NUM_WAYS => FlushLine(c[w]))
  }

  function FlushCache(s: State): State {
    s.(cache := seq(CACHE_NUM_SETS, k requires 0 <= k < CACHE_NUM_SETS => FlushSet(s.cache[k])))
  }

  function InvalidateSet(c: CacheSet): CacheSet {
    seq(CACHE_NUM_WAYS, w requires 0 <= w < CACHE_NUM_WAYS => c[w].(valid := false, dirty := false))
  }

  function InvalidateAll(s: State): State {
    s.(cache := seq(CACHE_NUM_SETS, k requires 0 <= k < CACHE_NUM_SETS => InvalidateSet(s.cache[k])))
  }

  // ---------- Frames ----------

  /** The lowest free frame, or |frames| if there is none. */
  function FirstFree(frames: seq<Frame>): (r: nat)
    ensures r <= |frames|
    ensures r < |frames| ==> frames[r].status == PageFree
    ensures forall g | 0 <= g < r :: frames[g].status != PageFree
  {
    if frames == [] then 0
    else
      var k := |frames| - 1;
      var r := FirstFree(frames[..k]);
      if r == k && frames[k].status != PageFree then |frames| else r
  }

  /** Take the lowest free frame for the process; without one nothing changes. */
  function TakeFrame(s: State, pid: u8): State {
    var f := FirstFree(s.frames);
    if f == MAX_PHYSICAL_PAGES then s
    else s.(frames := s.frames[f := Frame(PageAllocated, pid, 1, Tick(s.clock))], clock := Tick(s.clock))
  }

  function ReleaseFrame(frames: FrameTable, f: FrameIndex): FrameTable {
    var refs := if frames[f].refCount > 0 then frames[f].refCount - 1 else 0;
    frames[f := if refs == 0 then FREE_FRAME else frames[f].(refCount := refs)]
  }

  function FreePhysicalPage(s: State, f: u16): State {
    if f >= MAX_PHYSICAL_PAGES then s else s.(frames := ReleaseFrame(s.frames, f))
  }

  // ---------- Page table ----------

  predicate Mappable(pid: u8, lp: u16, f: u16) { InTable(pid, lp) && f < MAX_PHYSICAL_PAGES }

  function MapPage(s: State, pid: u8, lp: u16, f: u16): State {
    if !Mappable(pid, lp, f) then s
    else
      var e := s.table[pid][lp];
      var frames := if e.valid then ReleaseFrame(s.frames, e.physicalPage) else s.frames;
      s.(frames := frames[f := frames[f].(status := PageMapped, refCount := Wrap16(frames[f].refCount + 1),
                                          accessTime := Tick(Tick(s.clock)))],
         table := SetPte(s.table, pid, lp, Pte(f, true, false, 0, Tick(s.clock))),
         clock := Tick(Tick(s.clock)))
  }

  function UnmapPage(s: State, pid: u8, lp: u16): State {
    if !ValidPage(s.table, pid, lp) then s
    else
      var e := s.table[pid][lp];
      s.(cache := if e.dirty then ScrubFrame(s.cache, e.physicalPage, true) else s.cache,
         frames := ReleaseFrame(s.frames, e.physicalPage),
         table := SetPte(s.table, pid, lp, e.(valid := false, dirty := false, accessCount := 0)))
  }

  // ---------- Paged allocator ----------

  predicate Fits(row: seq<Pte>, start: nat, n: nat) {
    start + n <= |row| && forall i | start <= i < start + n :: !row[i].valid
  }

  /** The least start with n consecutive invalid entries, or |row| if there is none. */
  function FirstFit(row: seq<Pte>, n: nat): (start: nat)
    requires n > 0
    ensures start <= |row|
    ensures start < |row| ==> Fits(row, start, n)
    ensures forall i | 0 <= i < start :: !Fits(row, i, n)
  {
    if row == [] then 0
    else
      var k := |row| - 1;
      var start := FirstFit(row[..k], n);
      assert forall i: nat | i + n <= k :: Fits(row, i, n) <==> Fits(row[..k], i, n);
      if start < k then start else if n <= |row| && Fits(row, |row| - n, n) then |row| - n else |row|
  }

  /** The number of consecutive valid entries from start on. */
  function RunLength(row: PageRow, start: nat): (n: nat)
    requires start <= MAX_PAGES_PER_PROC
    ensures start + n <= MAX_PAGES_PER_PROC
    ensures forall i | start <= i < start + n :: row[i].valid
    ensures start + n < MAX_PAGES_PER_PROC ==> !row[start + n].valid
    decreases MAX_PAGES_PER_PROC - start
  {
    if start == MAX_PAGES_PER_PROC || !row[start].valid then 0 else 1 + RunLength(row, start + 1)
  }

  predicate HasFree(s: State) { FirstFree(s.frames) < MAX_PHYSICAL_PAGES }

  /** Take the lowest free frame and map it at the page. */
  function MapFresh(s: State, pid: u8, lp: u16): State
    requires HasFree(s)
  {
    MapPage(TakeFrame(s, pid), pid, lp, FirstFree(s.frames))
  }

  /** Take and map up to n frames at consecutive pages; `got` says how many there were. */
  function MapRun(s: State, pid: u8, start: nat, n: nat): (r: (State, nat))
    requires pid < MAX_PROCESSES && start + n <= MAX_PAGES_PER_PROC
    ensures r.1 <= n
    decreases n
  {
    if n == 0 || !HasFree(s) then (s, 0)
    else
      var r := MapRun(MapFresh(s, pid, start), pid, start + 1, n - 1);
      (r.0, r.1 + 1)
  }

  function UnmapRun(s: State, pid: u8, start: nat, n: nat): State
    requires pid < MAX_PROCESSES && start + n <= MAX_PAGES_PER_PROC
    decreases n
  {
    if n == 0 then s else UnmapRun(UnmapPage(s, pid, start), pid, start + 1, n - 1)
  }

  function PagesFor(size: u16): nat { (size + PAGE_SIZE - 1) / PAGE_SIZE }

  /** The process index is in range wherever `pagedRealloc` indexes the page table with it unchecked. */
  predicate Indexable(pid: u8, oldAddr: u32, size: u16) {
    pid < MAX_PROCESSES || oldAddr == 0 || size == 0 || PageOf(oldAddr) >= MAX_PAGES_PER_PROC
  }

  function PagedMalloc(s: State, pid: u8, size: u16): (r: (State, u32)) {
    if pid >= MAX_PROCESSES || size == 0 || PagesFor(size) > MAX_PAGES_PER_PROC then (s, 0)
    else
      var n := PagesFor(size);
      var start := FirstFit(s.table[pid], n);
      if start == MAX_PAGES_PER_PROC then (s, 0)
      else
        var r := MapRun(s, pid, start, n);
        if r.1 < n then (UnmapRun(r.0, pid, start, r.1), 0) else (r.0, start * PAGE_SIZE)
  }

  function PagedFree(s: State, pid: u8, addr: u32): State {
    if addr == 0 || !Mapped(s.table, pid, addr) then s
    else UnmapRun(s, pid, PageOf(addr), RunLength(s.table[pid], PageOf(addr)))
  }

  /** Copy the first n bytes, one cached read and one cached write at a time. */
  function CopyBytes(s: State, pid: u8, from: u32, to: u32, n: nat): State
    decreases n
  {
    if n == 0 then s else CopyByte(CopyBytes(s, pid, from, to, n - 1), pid, At(from, n - 1), At(to, n - 1))
  }

  function CopyByte(s: State, pid: u8, from: u32, to: u32): State {
    WriteByte(ReadByte(s, pid, from), pid, to, Peek(s, pid, from))
  }

  function PagedRealloc(s: State, pid: u8, oldAddr: u32, size: u16): (r: (State, u32)) {
    if oldAddr == 0 then PagedMalloc(s, pid, size)
    else if size == 0 then (PagedFree(s, pid, oldAddr), 0)
    else if !Mapped(s.table, pid, oldAddr) then (s, 0)
    else
      var oldSize := RunLength(s.table[pid], PageOf(oldAddr)) * PAGE_SIZE;
      if size <= oldSize then (s, oldAddr)
      else
        var m := PagedMalloc(s, pid, size);
        if m.1 == 0 then m
        else (PagedFree(CopyBytes(m.0, pid, oldAddr, m.1, oldSize), pid, oldAddr), m.1)
  }
}
