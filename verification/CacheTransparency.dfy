/** The cache over whole runs: no caller can observe it, and it keeps exactly the most recently used lines. */
module CacheTransparency {
  import opened Words
  import opened Sram
  import opened CacheSets
  import opened LruOrder
  import opened PageCacheModel
  import opened PageCacheInvariants
  import opened PageCacheSteps
  import opened PagedAllocator
  import opened PagedLifetimes
  import opened Writebacks
  import opened PageCacheRuns

  // ---------- The cache is invisible ----------

  /** The states differ at most in what is cached. */
  predicate SameButCache(s: State, r: State) { SameTables(s, r) && r.mem == s.mem }

  lemma {:induction false} ScrubProcessSame(s: State, r: State, pid: u8, drop: bool, row: seq<Pte>)
    requires SameButCache(s, r) && pid < MAX_PROCESSES && |row| <= MAX_PAGES_PER_PROC
    ensures SameButCache(ScrubProcess(s, pid, drop, row), ScrubProcess(r, pid, drop, row))
  {
    if row != [] {
      ScrubProcessSame(s, r, pid, drop, row[..|row| - 1]);
    }
  }

  lemma {:induction false} CopySame(s: State, r: State, pid: u8, from: u32, to: u32, n: nat)
    requires SameButCache(s, r)
    ensures SameButCache(CopyBytes(s, pid, from, to, n), CopyBytes(r, pid, from, to, n))
    decreases n
  {
    hide CopyBytes, At;
    CopyNone(s, pid, from, to);
    CopyNone(r, pid, from, to);
    if n > 0 {
      CopyNext(s, pid, from, to, n);
      CopyNext(r, pid, from, to, n);
      CopySame(s, r, pid, from, to, n - 1);
      var t, u := CopyBytes(s, pid, from, to, n - 1), CopyBytes(r, pid, from, to, n - 1);
      CopyByteSame(t, u, pid, At(from, n - 1), At(to, n - 1));
    }
  }

  lemma CopyByteSame(s: State, r: State, pid: u8, from: u32, to: u32)
    requires SameButCache(s, r)
    ensures SameButCache(CopyByte(s, pid, from, to), CopyByte(r, pid, from, to))
  {
    var t, u := ReadByte(s, pid, from), ReadByte(r, pid, from);
    assert SameButCache(t, u);
  }

  lemma MallocSame(s: State, r: State, pid: u8, size: u16)
    requires SameButCache(s, r)
    ensures SameButCache(PagedMalloc(s, pid, size).0, PagedMalloc(r, pid, size).0)
    ensures PagedMalloc(r, pid, size).1 == PagedMalloc(s, pid, size).1
  {
    MallocAlike(s, r, pid, size);
    MallocRedundant(s, pid, size);
    MallocRedundant(r, pid, size);
    hide PagedMalloc;
  }

  lemma FreeSame(s: State, r: State, pid: u8, addr: u32)
    requires SameButCache(s, r)
    ensures SameButCache(PagedFree(s, pid, addr), PagedFree(r, pid, addr))
  {
    if addr != 0 && Mapped(s.table, pid, addr) {
      var start, n := PageOf(addr), FreedPages(s.table, pid, addr);
      UnmapRunTables(s, s, pid, start, n);
      UnmapRunTables(s, r, pid, start, n);
      UnmapRunEffect(s, pid, start, n);
      UnmapRunEffect(r, pid, start, n);
    }
  }

  lemma ReallocSame(s: State, r: State, pid: u8, oldAddr: u32, size: u16)
    requires SameButCache(s, r)
    ensures SameButCache(PagedRealloc(s, pid, oldAddr, size).0, PagedRealloc(r, pid, oldAddr, size).0)
    ensures PagedRealloc(r, pid, oldAddr, size).1 == PagedRealloc(s, pid, oldAddr, size).1
  {
    MallocSame(s, r, pid, size);
    FreeSame(s, r, pid, oldAddr);
    if Grows(s.table, pid, oldAddr, size) {
      var m, n := PagedMalloc(s, pid, size), PagedMalloc(r, pid, size);
      var len := FreedPages(s.table, pid, oldAddr) * PAGE_SIZE;
      hide PagedMalloc;
      CopySame(m.0, n.0, pid, oldAddr, m.1, len);
      hide CopyBytes, PagedFree;
      FreeSame(CopyBytes(m.0, pid, oldAddr, m.1, len), CopyBytes(n.0, pid, oldAddr, m.1, len), pid, oldAddr);
    }
  }

  lemma AccessSame(s: State, r: State, pid: u8, addr: u32, b: u8)
    requires SameButCache(s, r)
    ensures SameButCache(ReadByte(s, pid, addr), ReadByte(r, pid, addr))
    ensures SameButCache(WriteByte(s, pid, addr, b), WriteByte(r, pid, addr, b))
  {
    hide AccessCache, StoreCache;
  }

  /** The call writes no line back off its place, or the line repeats so that this changes nothing. */
  predicate Harmless(s: State, op: Op) {
    op.DropLine? && DirtyHit(s.cache, op.addr) ==>
      op.addr < SRAM_SIZE && Repeats(s.mem, op.addr / CACHE_LINE_SIZE, op.addr % CACHE_LINE_SIZE)
  }

  predicate AllHarmless(s: State, ops: seq<Op>) {
    ops == [] || (AllHarmless(s, ops[..|ops| - 1]) && Harmless(Run(s, ops[..|ops| - 1]), ops[|ops| - 1]))
  }

  lemma HarmlessDrop(s: State, addr: u32)
    requires Coherent(s.cache, s.mem) && Harmless(s, DropLine(addr))
    ensures InvalidateLine(s, addr).mem == s.mem && SpillSafe(s, addr)
  {
    InvalidateLineKeepsMemoryIff(s, addr);
    ScrubLineEffect(s.cache, s.mem, addr / CACHE_LINE_SIZE, true);
    DropKeepsCoherentIff(s, addr);
  }

  lemma PlainStepSame(s: State, r: State, op: Op)
    requires SameButCache(s, r) && Coherent(s.cache, s.mem) && Coherent(r.cache, r.mem)
    requires Harmless(s, op) && Harmless(r, op)
    ensures SameButCache(PlainStep(s, op), PlainStep(r, op)) && PlainResult(r, op) == PlainResult(s, op)
  {
    hide Coherent, ReadByte, WriteByte, PagedMalloc, PagedFree, PagedRealloc, InvalidateLine;
    match op
    case Read(pid, addr) => AccessSame(s, r, pid, addr, 0);
    case Write(pid, addr, b) => AccessSame(s, r, pid, addr, b);
    case DropProcess(pid) => if pid < MAX_PROCESSES { ScrubProcessSame(s, r, pid, true, s.table[pid]); }
    case FlushPages(pid) => if pid < MAX_PROCESSES { ScrubProcessSame(s, r, pid, false, s.table[pid]); }
    case DropLine(addr) => HarmlessDrop(s, addr); HarmlessDrop(r, addr); DropLineSame(s, r, addr);
    case Malloc(pid, size) => MallocSame(s, r, pid, size);
    case Free(pid, addr) => FreeSame(s, r, pid, addr);
    case Realloc(pid, oldAddr, size) => ReallocSame(s, r, pid, oldAddr, size);
    case _ =>
  }

  lemma DropLineSame(s: State, r: State, addr: u32)
    requires SameTables(s, r)
    ensures SameTables(InvalidateLine(s, addr), InvalidateLine(r, addr))
  {
  }

  lemma StepSame(s: State, r: State, op: Op)
    requires SameButCache(s, r) && Inv(s) && Inv(r) && Harmless(s, op) && Harmless(r, op)
    ensures SameButCache(Step(s, op), Step(r, op)) && Result(r, op) == Result(s, op)
    ensures Safe(s, op) && Safe(r, op)
  {
    hide Step, PlainStep, Result, PlainResult, Harmless, SpillSafe, SameButCache;
    if op.DropLine? {
      HarmlessDrop(s, op.addr);
      HarmlessDrop(r, op.addr);
    }
    StepRedundant(s, op);
    StepRedundant(r, op);
    PlainStepSame(s, r, op);
  }

  /** Whatever is cached at the start, dirty or not, every call of every harmless run returns the same and leaves the
      same memory, mappings and frames: the cache is a pure accelerator of the flat memory. */
  lemma {:induction false} CacheIsInvisible(s: State, r: State, ops: seq<Op>)
    requires SameButCache(s, r) && Inv(s) && Inv(r) && AllHarmless(s, ops) && AllHarmless(r, ops)
    ensures SameButCache(Run(s, ops), Run(r, ops)) && Results(r, ops) == Results(s, ops)
    ensures Inv(Run(s, ops)) && Inv(Run(r, ops))
  {
    hide Inv, Step, Result, SameButCache, Harmless;
    if ops != [] {
      var before, op := ops[..|ops| - 1], ops[|ops| - 1];
      CacheIsInvisible(s, r, before);
      StepSame(Run(s, before), Run(r, before), op);
      SafeStepKeepsInv(Run(s, before), op);
      SafeStepKeepsInv(Run(r, before), op);
    }
  }

  /** Runs that only give `invalidateLine` addresses of lines are harmless, with nothing to check on the way. */
  lemma {:induction false} AlignedIsHarmless(s: State, ops: seq<Op>)
    requires Inv(s) && AllAligned(ops)
    ensures AllHarmless(s, ops)
  {
    hide Run, Inv;
    if ops != [] {
      var before, op := ops[..|ops| - 1], ops[|ops| - 1];
      AlignedIsHarmless(s, before);
      AlignedIsSafe(s, before);
      SafeRunKeepsInv(s, before);
      assert Rounded(op) == op;
      AlignedHarmless(Run(s, before), op);
    }
  }

  lemma AlignedHarmless(s: State, op: Op)
    requires Inv(s) && Rounded(op) == op
    ensures Harmless(s, op)
  {
    if op.DropLine? {
      InvalidateLineKeepsMemoryIff(s, op.addr);
    }
  }

  // ---------- True LRU ----------

  /** The call drops no line: any but invalidating, flushing, and unmapping dirty pages. */
  predicate KeepsLines(s: State, op: Op) {
    match op
    case Read(_, _) => true
    case Write(_, _, _) => true
    case AllocateFrame(_) => true
    case FreeFrame(_) => true
    case Map(_, _, _) => true
    case Unmap(pid, lp) => ValidPage(s.table, pid, lp) ==> !s.table[pid][lp].dirty
    case Malloc(_, _) => true
    case Free(pid, addr) => Mapped(s.table, pid, addr) ==> CleanRun(s.table, pid, addr)
    case Realloc(pid, oldAddr, size) =>
      if oldAddr == 0 then true
      else if size == 0 then Mapped(s.table, pid, oldAddr) ==> CleanRun(s.table, pid, oldAddr)
      else Grows(s.table, pid, oldAddr, size) && Granted(s, pid, size) ==> Place(s.table, pid, size) == 0
    case _ => false
  }

  predicate CleanRun(t: PageTable, pid: u8, addr: u32)
    requires Mapped(t, pid, addr)
  {
    forall l | PageOf(addr) <= l < RunEnd(t, pid, addr) :: !t[pid][l].dirty
  }

  predicate AllKeepLines(s: State, ops: seq<Op>) {
    ops == [] || (AllKeepLines(s, ops[..|ops| - 1]) && KeepsLines(Run(s, ops[..|ops| - 1]), ops[|ops| - 1]))
  }

  /** The most clock ticks a call that drops no line can take. */
  function MaxTicks(op: Op): nat {
    match op
    case Malloc(_, size) => 3 * PagesFor(size)
    case Realloc(_, _, size) => 3 * PagesFor(size)
    case _ => 3
  }

  function RunTicks(ops: seq<Op>): nat {
    if ops == [] then 0 else RunTicks(ops[..|ops| - 1]) + MaxTicks(ops[|ops| - 1])
  }

  /** The line tag the call uses, if it is a byte access that goes to set k. */
  function UsedTag(t: PageTable, op: Op, k: nat): seq<u32> {
    if (op.Read? || op.Write?) && Mapped(t, op.pid, op.addr)
       && Translate(t, op.pid, op.addr) / CACHE_LINE_SIZE % CACHE_NUM_SETS == k
    then [Translate(t, op.pid, op.addr) / CACHE_LINE_SIZE] else []
  }

  /** The tags of set k that the run uses, in order, each under the page table of its time. */
  function UsedTags(s: State, ops: seq<Op>, k: nat): seq<u32> {
    if ops == [] then []
    else UsedTags(s, ops[..|ops| - 1], k) + UsedTag(Run(s, ops[..|ops| - 1]).table, ops[|ops| - 1], k)
  }

  /** Lines equal in tag, validity and stamp. */
  ghost predicate SameStamps(c: CacheSet, d: CacheSet) {
    forall w | 0 <= w < CACHE_NUM_WAYS ::
      d[w].tag == c[w].tag && d[w].valid == c[w].valid && d[w].lastAccess == c[w].lastAccess
  }

  lemma SameStampsLru(c: CacheSet, d: CacheSet, recent: seq<u32>, ways: seq<nat>, clock: nat)
    requires SameStamps(c, d) && LruInv(c, recent, ways, clock)
    ensures LruInv(d, recent, ways, clock)
  {
    forall i | 0 <= i < |ways|
      ensures Sits(d, ways[i], recent[i], clock)
    {
      assert Sits(c, ways[i], recent[i], clock);
    }
  }

  lemma LruLater(c: CacheSet, recent: seq<u32>, ways: seq<nat>, clock: nat, later: nat)
    requires LruInv(c, recent, ways, clock) && clock <= later
    ensures LruInv(c, recent, ways, later)
  {
    forall i | 0 <= i < |ways|
      ensures Sits(c, ways[i], recent[i], later)
    {
      assert Sits(c, ways[i], recent[i], clock);
    }
  }

  /** Set k after a call: as before, or accessed with the next clock value and filled from memory m. */
  ghost predicate SetServed(s: State, m: Memory, r: State, used: seq<u32>, k: nat)
    requires k < CACHE_NUM_SETS
  {
    && s.clock <= r.clock
    && if used == [] then r.cache[k] == s.cache[k]
       else
         && s.clock < r.clock && used[0] < TOTAL_TAGS
         && SameStamps(Access(s.cache[k], used[0], Tick(s.clock), Line(m, used[0])), r.cache[k])
  }

  lemma LineStepSet(s: State, op: Op, k: nat) returns (m: Memory)
    requires KeepsLines(s, op) && k < CACHE_NUM_SETS && s.clock + MaxTicks(op) < 0x1_0000_0000
    ensures Step(s, op).clock <= s.clock + MaxTicks(op)
    ensures SetServed(s, m, Step(s, op), UsedTag(s.table, op, k), k)
  {
    m := s.mem;
    if op.Read? {
      m := ReadServed(s, op.pid, op.addr, op, k);
    } else if op.Write? {
      m := WriteServed(s, op.pid, op.addr, op.b, op, k);
    } else {
      OtherStepLines(s, op);
      hide Step, SameStamps;
    }
  }

  lemma ReadServed(s: State, pid: u8, addr: u32, op: Op, k: nat) returns (m: Memory)
    requires op == Read(pid, addr) && k < CACHE_NUM_SETS && s.clock + 3 < 0x1_0000_0000
    ensures Step(s, op).clock <= s.clock + 3
    ensures SetServed(s, m, Step(s, op), UsedTag(s.table, op, k), k)
  {
    var t := Code.RoomMade(s, pid, addr);
    m := t.mem;
    ReadCache(t, pid, addr);
    SameStampsReflexive(Step(s, op).cache[k]);
    hide Access, SameStamps, Line, ReadByte, Translate, Code.Displaced;
  }

  lemma WriteServed(s: State, pid: u8, addr: u32, b: u8, op: Op, k: nat) returns (m: Memory)
    requires op == Write(pid, addr, b) && k < CACHE_NUM_SETS && s.clock + 3 < 0x1_0000_0000
    ensures Step(s, op).clock <= s.clock + 3
    ensures SetServed(s, m, Step(s, op), UsedTag(s.table, op, k), k)
  {
    var t := Code.RoomMade(s, pid, addr);
    m := t.mem;
    WriteCache(t, pid, addr, b);
    hide Access, Store, SameStamps, Line, WriteByte, Translate, Code.Displaced;
    if Mapped(s.table, pid, addr) {
      var pa := Translate(s.table, pid, addr);
      var tag := pa / CACHE_LINE_SIZE;
      StoreStamps(s.cache[tag % CACHE_NUM_SETS], tag, Tick(s.clock), Line(m, tag), pa % CACHE_LINE_SIZE, b);
    }
  }

  lemma SameStampsReflexive(c: CacheSet)
    ensures SameStamps(c, c)
  {
  }

  lemma ReadCache(s: State, pid: u8, addr: u32)
    requires s.clock + 3 < 0x1_0000_0000
    ensures var r := ReadByte(s, pid, addr);
      if Mapped(s.table, pid, addr)
      then
        && r.clock == s.clock + 3
        && r.cache == AccessCache(s.cache, s.mem, Translate(s.table, pid, addr), Tick(s.clock))
      else r == s
  {
    hide AccessCache, Translate, PageOf, SetPte;
    ThreeTicks(s.clock);
    hide Tick;
  }

  lemma ThreeTicks(clock: u32)
    requires clock + 3 < 0x1_0000_0000
    ensures Tick(clock) == clock + 1 && Tick(Tick(clock)) == clock + 2 && Tick(Tick(Tick(clock))) == clock + 3
  {
  }

  lemma WriteCache(s: State, pid: u8, addr: u32, b: u8)
    requires s.clock + 3 < 0x1_0000_0000
    ensures var r := WriteByte(s, pid, addr, b);
      if Mapped(s.table, pid, addr)
      then
        && r.clock == s.clock + 3
        && r.cache == StoreCache(s.cache, s.mem, Translate(s.table, pid, addr), Tick(s.clock), b)
      else r == s
  {
    hide StoreCache, Translate, PageOf;
    ThreeTicks(s.clock);
    hide Tick;
  }

  lemma StoreStamps(c: CacheSet, tag: u32, now: u32, fill: LineData, offset: nat, b: u8)
    requires offset < CACHE_LINE_SIZE
    ensures SameStamps(Access(c, tag, now, fill), Store(c, tag, now, fill, offset, b))
  {
  }

  // ---------- Calls that touch no line ----------

  lemma {:induction false} MapRunClock(s: State, pid: u8, start: nat, n: nat)
    requires pid < MAX_PROCESSES && start + n <= MAX_PAGES_PER_PROC && s.clock + 3 * n < 0x1_0000_0000
    ensures s.clock <= MapRun(s, pid, start, n).0.clock <= s.clock + 3 * n
    decreases n
  {
    hide MapRun, HasFree;
    if n == 0 || !HasFree(s) {
      MapRunStop(s, pid, start, n);
    } else {
      var t := MapOneClock(s, pid, start, n);
      MapRunClock(t, pid, start + 1, n - 1);
    }
  }

  lemma MapOneClock(s: State, pid: u8, start: nat, n: nat) returns (t: State)
    requires pid < MAX_PROCESSES && n > 0 && start + n <= MAX_PAGES_PER_PROC && HasFree(s)
    requires s.clock + 3 < 0x1_0000_0000
    ensures MapRun(s, pid, start, n).0 == MapRun(t, pid, start + 1, n - 1).0
    ensures t.clock == s.clock + 3
  {
    hide ReleaseFrame, SetPte;
    t := MapFresh(s, pid, start);
    ThreeTicks(s.clock);
    hide Tick;
  }

  lemma MallocClock(s: State, pid: u8, size: u16)
    requires s.clock + 3 * PagesFor(size) < 0x1_0000_0000
    ensures s.clock <= PagedMalloc(s, pid, size).0.clock <= s.clock + 3 * PagesFor(size)
  {
    hide MapRun, UnmapRun;
    if Requestable(pid, size) && Place(s.table, pid, size) < MAX_PAGES_PER_PROC {
      var start, m := Place(s.table, pid, size), MapRun(s, pid, Place(s.table, pid, size), PagesFor(size));
      MapRunClock(s, pid, start, PagesFor(size));
      UnmapRunEffect(m.0, pid, start, m.1);
    }
  }

  lemma FreeClean(s: State, pid: u8, addr: u32)
    requires Mapped(s.table, pid, addr) ==> CleanRun(s.table, pid, addr)
    ensures Code.PagedFree(s, pid, addr).cache == s.cache && Code.PagedFree(s, pid, addr).clock == s.clock
  {
    if addr != 0 && Mapped(s.table, pid, addr) {
      UnmapCleanRun(s, pid, PageOf(addr), FreedPages(s.table, pid, addr));
      UnmapRunEffect(s, pid, PageOf(addr), FreedPages(s.table, pid, addr));
    }
  }

  lemma ReallocLines(s: State, pid: u8, oldAddr: u32, size: u16)
    requires KeepsLines(s, Realloc(pid, oldAddr, size)) && s.clock + 3 * PagesFor(size) < 0x1_0000_0000
    ensures var r := Code.PagedRealloc(s, pid, oldAddr, size).0;
      r.cache == s.cache && s.clock <= r.clock <= s.clock + 3 * PagesFor(size)
  {
    hide PagedMalloc, Code.PagedMalloc, Code.PagedFree, Code.CopyBytes;
    MallocRedundant(s, pid, size);
    MallocClock(s, pid, size);
    if oldAddr != 0 && size == 0 {
      FreeClean(s, pid, oldAddr);
    } else if oldAddr != 0 && Grows(s.table, pid, oldAddr, size) {
      if Granted(s, pid, size) { MallocGranted(s, pid, size); } else { MallocRefused(s, pid, size); }
    }
  }

  /** Allocation, raw frame and mapping calls, and unmapping clean pages leave every line of the cache as it is. */
  lemma OtherStepLines(s: State, op: Op)
    requires KeepsLines(s, op) && !op.Read? && !op.Write? && s.clock + MaxTicks(op) < 0x1_0000_0000
    ensures Step(s, op).cache == s.cache && s.clock <= Step(s, op).clock <= s.clock + MaxTicks(op)
  {
    hide PagedMalloc, Code.PagedMalloc, Code.PagedFree, ReleaseFrame, SetPte;
    match op
    case AllocateFrame(_) => ThreeTicks(s.clock);
    case FreeFrame(_) =>
    case Map(_, _, _) => ThreeTicks(s.clock);
    case Unmap(_, _) =>
    case Malloc(pid, size) => MallocRedundant(s, pid, size); MallocClock(s, pid, size);
    case Free(pid, addr) => FreeClean(s, pid, addr);
    case Realloc(pid, oldAddr, size) => ReallocLines(s, pid, oldAddr, size);
  }

  // ---------- Runs ----------

  lemma {:induction false} RunLru(s: State, ops: seq<Op>, k: nat) returns (ways: seq<nat>)
    requires AllKeepLines(s, ops) && k < CACHE_NUM_SETS && s.clock + RunTicks(ops) < 0x1_0000_0000
    requires forall w | 0 <= w < CACHE_NUM_WAYS :: !s.cache[k][w].valid
    ensures Run(s, ops).clock <= s.clock + RunTicks(ops)
    ensures LruInv(Run(s, ops).cache[k], Recent(UsedTags(s, ops, k)), ways, Run(s, ops).clock)
  {
    hide Step, KeepsLines, UsedTag;
    if ops == [] {
      ways := [];
    } else {
      var before, op := ops[..|ops| - 1], ops[|ops| - 1];
      ways := RunLru(s, before, k);
      ways := StepLru(Run(s, before), op, k, UsedTags(s, before, k), ways);
    }
  }

  lemma StepLru(t: State, op: Op, k: nat, tags: seq<u32>, ways: seq<nat>) returns (ways': seq<nat>)
    requires KeepsLines(t, op) && k < CACHE_NUM_SETS && t.clock + MaxTicks(op) < 0x1_0000_0000
    requires LruInv(t.cache[k], Recent(tags), ways, t.clock)
    ensures LruInv(Step(t, op).cache[k], Recent(tags + UsedTag(t.table, op, k)), ways', Step(t, op).clock)
    ensures Step(t, op).clock <= t.clock + MaxTicks(op)
  {
    var r, used := Step(t, op), UsedTag(t.table, op, k);
    var m := LineStepSet(t, op, k);
    hide Step, UsedTag, LruInv;
    if used == [] {
      ways' := ways;
      assert tags + used == tags;
      LruLater(r.cache[k], Recent(tags), ways', t.clock, r.clock);
    } else {
      ways' := ServedLru(t, m, r, k, tags, used, ways);
    }
  }

  lemma ServedLru(t: State, m: Memory, r: State, k: nat, tags: seq<u32>, used: seq<u32>, ways: seq<nat>)
    returns (ways': seq<nat>)
    requires k < CACHE_NUM_SETS && |used| == 1 && SetServed(t, m, r, used, k) && t.clock < 0xFFFF_FFFF
    requires LruInv(t.cache[k], Recent(tags), ways, t.clock)
    ensures LruInv(r.cache[k], Recent(tags + used), ways', r.clock)
  {
    hide Recent, LruInv, SameStamps, Access, Promote, Line, Distinct;
    var tag := used[0];
    var c := Access(t.cache[k], tag, Tick(t.clock), Line(m, tag));
    RecentIsByLastUse(tags);
    ways' := AccessKeepsLru(t.cache[k], Recent(tags), ways, t.clock, tag, Tick(t.clock), Line(m, tag));
    RecentStep(tags, used);
    SameStampsLru(c, r.cache[k], Recent(tags + used), ways', Tick(t.clock));
    LruLater(r.cache[k], Recent(tags + used), ways', Tick(t.clock), r.clock);
  }

  lemma RecentStep(tags: seq<u32>, used: seq<u32>)
    requires |used| == 1
    ensures Recent(tags + used) == Promote(Recent(tags), used[0])
  {
    assert (tags + used)[..|tags|] == tags;
  }

  /** Starting from an empty set, while no line is dropped and the clock has not wrapped, the resident tags of a set
      are exactly the four most recently used distinct tags, and a full set evicts the one used longest ago. */
  lemma TrueLru(s: State, ops: seq<Op>, k: nat, tag: u32)
    requires AllKeepLines(s, ops) && k < CACHE_NUM_SETS && s.clock + RunTicks(ops) < 0x1_0000_0000
    requires forall w | 0 <= w < CACHE_NUM_WAYS :: !s.cache[k][w].valid
    ensures var c, recent := Run(s, ops).cache[k], Recent(UsedTags(s, ops, k));
      && (Lookup(c, tag) < CACHE_NUM_WAYS <==> tag in Top(recent, CACHE_NUM_WAYS))
      && (FreeWay(c) == CACHE_NUM_WAYS <==> |recent| >= CACHE_NUM_WAYS)
      && (|recent| >= CACHE_NUM_WAYS ==> Holds(c[VictimWay(c)], recent[CACHE_NUM_WAYS - 1]))
  {
    var ways := RunLru(s, ops, k);
    hide Run, Recent, UsedTags, RunTicks, AllKeepLines;
    var c, recent := Run(s, ops).cache[k], Recent(UsedTags(s, ops, k));
    ResidentAreRecent(c, recent, ways, Run(s, ops).clock, tag);
    VictimIsOldest(c, recent, ways, Run(s, ops).clock);
    AllWays(ways, CACHE_NUM_WAYS);
    if |recent| >= CACHE_NUM_WAYS {
      assert Sits(c, ways[CACHE_NUM_WAYS - 1], recent[CACHE_NUM_WAYS - 1], Run(s, ops).clock);
    }
  }
}
