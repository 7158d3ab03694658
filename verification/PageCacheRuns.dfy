/** Whole runs of public calls: what every reachable state satisfies. */
module PageCacheRuns {
  import opened Words
  import opened Sram
  import opened CacheSets
  import opened PageCacheModel
  import opened PageCacheInvariants
  import opened PageCacheSteps
  import opened PagedAllocator
  import opened PagedLifetimes
  import opened Writebacks

  datatype Op =
    | Init
    | AllocateFrame(pid: u8)
    | FreeFrame(f: u16)
    | Map(pid: u8, lp: u16, f: u16)
    | Unmap(pid: u8, lp: u16)
    | Read(pid: u8, addr: u32)
    | Write(pid: u8, addr: u32, b: u8)
    | DropProcess(pid: u8)
    | DropLine(addr: u32)
    | FlushAll
    | FlushPages(pid: u8)
    | DropAll
    | Malloc(pid: u8, size: u16)
    | Free(pid: u8, addr: u32)
    | Realloc(pid: u8, oldAddr: u32, size: u16)

  /** What a call of the code does. */
  function Step(s: State, op: Op): State {
    match op
    case Init => Initial(s.mem)
    case AllocateFrame(pid) => TakeFrame(s, pid)
    case FreeFrame(f) => FreePhysicalPage(s, f)
    case Map(pid, lp, f) => MapPage(s, pid, lp, f)
    case Unmap(pid, lp) => Code.UnmapPage(s, pid, lp)
    case Read(pid, addr) => Code.ReadByte(s, pid, addr)
    case Write(pid, addr, b) => Code.WriteByte(s, pid, addr, b)
    case DropProcess(pid) => Code.InvalidateProcess(s, pid)
    case DropLine(addr) => InvalidateLine(s, addr)
    case FlushAll => Code.FlushCache(s)
    case FlushPages(pid) => Code.FlushProcess(s, pid)
    case DropAll => InvalidateAll(s)
    case Malloc(pid, size) => Code.PagedMalloc(s, pid, size).0
    case Free(pid, addr) => Code.PagedFree(s, pid, addr)
    case Realloc(pid, oldAddr, size) => Code.PagedRealloc(s, pid, oldAddr, size).0
  }

  /** What it gives back. */
  function Result(s: State, op: Op): int {
    match op
    case AllocateFrame(_) => if FirstFree(s.frames) < MAX_PHYSICAL_PAGES then FirstFree(s.frames) else -1
    case Map(pid, lp, f) => if Mappable(pid, lp, f) then 1 else 0
    case Read(pid, addr) => Code.CachedByte(s, pid, addr)
    case Malloc(pid, size) => Code.PagedMalloc(s, pid, size).1
    case Realloc(pid, oldAddr, size) => Code.PagedRealloc(s, pid, oldAddr, size).1
    case _ => 0
  }

  function Run(s: State, ops: seq<Op>): State {
    if ops == [] then s else Step(Run(s, ops[..|ops| - 1]), ops[|ops| - 1])
  }

  function Results(s: State, ops: seq<Op>): seq<int> {
    if ops == [] then []
    else Results(s, ops[..|ops| - 1]) + [Result(Run(s, ops[..|ops| - 1]), ops[|ops| - 1])]
  }

  /** The same call on the machine without write-backs. */
  function PlainStep(s: State, op: Op): State {
    match op
    case Unmap(pid, lp) => UnmapPage(s, pid, lp)
    case Read(pid, addr) => ReadByte(s, pid, addr)
    case Write(pid, addr, b) => WriteByte(s, pid, addr, b)
    case DropProcess(pid) => InvalidateProcess(s, pid)
    case FlushAll => FlushCache(s)
    case FlushPages(pid) => FlushProcess(s, pid)
    case Malloc(pid, size) => PagedMalloc(s, pid, size).0
    case Free(pid, addr) => PagedFree(s, pid, addr)
    case Realloc(pid, oldAddr, size) => PagedRealloc(s, pid, oldAddr, size).0
    case _ => Step(s, op)
  }

  function PlainResult(s: State, op: Op): int {
    match op
    case Read(pid, addr) => Peek(s, pid, addr)
    case Malloc(pid, size) => PagedMalloc(s, pid, size).1
    case Realloc(pid, oldAddr, size) => PagedRealloc(s, pid, oldAddr, size).1
    case _ => Result(s, op)
  }

  // ---------- Code and plain machine ----------

  /** With an agreeing cache the write-backs of every call are redundant, and reads see flat memory. */
  lemma StepRedundant(s: State, op: Op)
    requires Coherent(s.cache, s.mem)
    ensures Step(s, op) == PlainStep(s, op) && Result(s, op) == PlainResult(s, op)
  {
    hide Coherent, Peek, ReadByte, WriteByte, Code.ReadByte, Code.WriteByte, Code.CachedByte, InvalidateLine;
    hide FlushCache;
    hide PagedMalloc, PagedFree, PagedRealloc, Code.PagedMalloc, Code.PagedFree, Code.PagedRealloc, Code.FlushCache;
    match op
    case Unmap(pid, lp) =>
      if ValidPage(s.table, pid, lp) { FrameRedundant(s, s.table[pid][lp].physicalPage, true); }
    case Read(pid, addr) => AccessRedundant(s, pid, addr, 0);
    case Write(pid, addr, b) => AccessRedundant(s, pid, addr, b);
    case DropProcess(pid) => if pid < MAX_PROCESSES { ScrubRedundant(s, pid, true, s.table[pid]); }
    case FlushAll => FlushRedundant(s);
    case FlushPages(pid) => if pid < MAX_PROCESSES { ScrubRedundant(s, pid, false, s.table[pid]); }
    case Malloc(pid, size) => MallocRedundant(s, pid, size);
    case Free(pid, addr) => FreeRedundant(s, pid, addr);
    case Realloc(pid, oldAddr, size) => ReallocRedundant(s, pid, oldAddr, size);
    case _ =>
  }

  /** `invalidateLine` with the address rounded down to that of its line. */
  function Rounded(op: Op): Op {
    if op.DropLine? then DropLine(op.addr - op.addr % CACHE_LINE_SIZE) else op
  }

  /** Frames, page table, clock and everything about the lines but their data evolve as if nothing were ever written
      back and no address were off a line, whatever the cache and memory hold. */
  lemma StepAlike(s: State, r: State, op: Op)
    requires Alike(s, r)
    ensures Alike(Step(s, op), PlainStep(r, Rounded(op)))
    ensures !op.Read? ==> Result(s, op) == PlainResult(r, Rounded(op))
  {
    hide AlikeCaches, Peek, ReadByte, WriteByte, Code.ReadByte, Code.WriteByte, InvalidateLine, InvalidateAll;
    hide FlushCache;
    hide PagedMalloc, PagedFree, PagedRealloc, Code.PagedMalloc, Code.PagedFree, Code.PagedRealloc, Code.FlushCache;
    hide UnmapPage, Code.UnmapPage, TakeFrame, MapPage;
    match op
    case Init => AlikeReflexive(Initial(s.mem), r.mem);
    case AllocateFrame(pid) => TakeAlike(s, r, pid);
    case Map(pid, lp, f) => MapAlike(s, r, pid, lp, f);
    case FreeFrame(f) =>
    case Unmap(pid, lp) => UnmapAlike(s, r, pid, lp);
    case Read(pid, addr) => ReadAlike(s, r, pid, addr);
    case Write(pid, addr, b) => WriteAlike(s, r, pid, addr, b, b);
    case DropProcess(pid) => if pid < MAX_PROCESSES { ScrubProcessAlike(s, r, pid, true, s.table[pid]); }
    case DropLine(addr) => DropLineAlike(s, r, addr);
    case FlushAll => FlushAlike(s, r);
    case FlushPages(pid) => if pid < MAX_PROCESSES { ScrubProcessAlike(s, r, pid, false, s.table[pid]); }
    case DropAll => FlushAlike(s, r);
    case Malloc(pid, size) =>
      MallocAlike(s, r, pid, size);
      MallocRedundant(s, pid, size);
      MallocRedundant(r, pid, size);
    case Free(pid, addr) => FreeAlike(s, r, pid, addr);
    case Realloc(pid, oldAddr, size) => ReallocAlike(s, r, pid, oldAddr, size);
  }

  lemma AlikeReflexive(s: State, m: Memory)
    ensures Alike(s, s.(mem := m))
  {
  }

  // ---------- Invalidating one line ----------

  /** The line that the bytes written back past the end of the address's line belong to. */
  function NextTag(addr: u32): (tag: u32)
    ensures tag < TOTAL_TAGS
  {
    (addr / CACHE_LINE_SIZE + 1) % TOTAL_TAGS
  }

  /** The line the address belongs to, if it is resident. */
  function LineOf(c: Cache, addr: u32): LineData
    requires Resident(c, addr / CACHE_LINE_SIZE)
  {
    var tag := addr / CACHE_LINE_SIZE;
    c[tag % CACHE_NUM_SETS][Lookup(c[tag % CACHE_NUM_SETS], tag)].data
  }

  /** Nothing dirty is written back off its place, or no line is cached where the bytes spill over, or they spill only
      what is there. */
  predicate SpillSafe(s: State, addr: u32) {
    DirtyHit(s.cache, addr) && Resident(s.cache, NextTag(addr)) ==>
      SameStart(Line(s.mem, NextTag(addr)), LineOf(s.cache, addr), addr % CACHE_LINE_SIZE)
  }

  /** The line starts with the last o bytes of d. */
  predicate SameStart(line: LineData, d: LineData, o: nat)
    requires o < CACHE_LINE_SIZE
  {
    forall i: nat | i < o :: line[i] == d[CACHE_LINE_SIZE - o + i]
  }

  /** The 32 + o bytes from the start of the line repeat with period o. */
  predicate Repeats(m: Memory, tag: nat, o: nat)
    requires tag < TOTAL_TAGS
  {
    forall i: nat | i < CACHE_LINE_SIZE :: Line(m, tag)[i] == m[Cell(tag * CACHE_LINE_SIZE, o + i)]
  }

  lemma DirtyHitCoherent(s: State, addr: u32)
    requires Coherent(s.cache, s.mem) && DirtyHit(s.cache, addr)
    ensures addr < SRAM_SIZE && LineOf(s.cache, addr) == Line(s.mem, addr / CACHE_LINE_SIZE)
    ensures InvalidateLine(s, addr).mem == Overwrite(s.mem, addr, Line(s.mem, addr / CACHE_LINE_SIZE))
  {
    var tag := addr / CACHE_LINE_SIZE;
    assert SetCoherent(s.cache[tag % CACHE_NUM_SETS], tag % CACHE_NUM_SETS, s.mem);
  }

  /** The given address of a dirty line decides whether memory changes: iff the line does not repeat with the period
      of the address's offset. For a multiple of the line size it always does. */
  lemma InvalidateLineKeepsMemoryIff(s: State, addr: u32)
    requires Coherent(s.cache, s.mem)
    ensures DirtyHit(s.cache, addr) ==> addr < SRAM_SIZE
    ensures InvalidateLine(s, addr).mem == s.mem
       <==> (DirtyHit(s.cache, addr) ==> Repeats(s.mem, addr / CACHE_LINE_SIZE, addr % CACHE_LINE_SIZE))
    ensures addr % CACHE_LINE_SIZE == 0 ==> InvalidateLine(s, addr).mem == s.mem
  {
    var tag := addr / CACHE_LINE_SIZE;
    if DirtyHit(s.cache, addr) {
      DirtyHitCoherent(s, addr);
      hide Overwrite;
      OverwriteIdentityIff(s.mem, addr, Line(s.mem, tag));
      AlignedBytes(s.mem, tag);
      RepeatsIff(s.mem, addr);
    }
  }

  lemma RepeatsIff(m: Memory, addr: u32)
    requires addr < SRAM_SIZE
    ensures Repeats(m, addr / CACHE_LINE_SIZE, addr % CACHE_LINE_SIZE)
       <==> BytesAt(m, addr, CACHE_LINE_SIZE) == Line(m, addr / CACHE_LINE_SIZE)
  {
    var tag, o := addr / CACHE_LINE_SIZE, addr % CACHE_LINE_SIZE;
    var b := BytesAt(m, addr, CACHE_LINE_SIZE);
    assert forall i: nat | i < CACHE_LINE_SIZE :: b[i] == m[Cell(tag * CACHE_LINE_SIZE, o + i)];
    hide Cell, Line, BytesAt;
    if b == Line(m, tag) {
      assert Repeats(m, tag, o);
    }
    if Repeats(m, tag, o) {
      assert forall i: nat | i < CACHE_LINE_SIZE :: b[i] == Line(m, tag)[i];
    }
  }

  /** Where the 32 bytes from the address on land: in the rest of its line and the beginning of the next. */
  lemma OverwrittenLine(m: Memory, addr: u32, d: LineData, u: nat)
    requires addr < SRAM_SIZE && u < TOTAL_TAGS && u != addr / CACHE_LINE_SIZE
    ensures var o := addr % CACHE_LINE_SIZE;
      Line(Overwrite(m, addr, d), u)
        == if u == NextTag(addr) then d[CACHE_LINE_SIZE - o..] + Line(m, u)[o..] else Line(m, u)
  {
    var o := addr % CACHE_LINE_SIZE;
    forall i: nat | i < CACHE_LINE_SIZE
      ensures Line(Overwrite(m, addr, d), u)[i]
        == if u == NextTag(addr) && i < o then d[CACHE_LINE_SIZE - o + i] else m[u * CACHE_LINE_SIZE + i]
    {
      SpillGap(addr, u, i);
    }
    hide Overwrite;
  }

  lemma SpillGap(addr: u32, u: nat, i: nat)
    requires addr < SRAM_SIZE && u < TOTAL_TAGS && u != addr / CACHE_LINE_SIZE && i < CACHE_LINE_SIZE
    ensures var gap, o := Gap(addr, u * CACHE_LINE_SIZE + i), addr % CACHE_LINE_SIZE;
      if u == NextTag(addr) then gap == CACHE_LINE_SIZE - o + i else gap >= CACHE_LINE_SIZE
  {
  }

  /** Dropping a line keeps the cache in agreement with memory iff what spills over its end is safe. */
  lemma DropKeepsCoherentIff(s: State, addr: u32)
    requires Coherent(s.cache, s.mem)
    ensures Coherent(InvalidateLine(s, addr).cache, InvalidateLine(s, addr).mem) <==> SpillSafe(s, addr)
  {
    var r, tag := InvalidateLine(s, addr), addr / CACHE_LINE_SIZE;
    ScrubLineEffect(s.cache, s.mem, tag, true);
    if DirtyHit(s.cache, addr) {
      DirtyHitCoherent(s, addr);
      DropResidency(s, addr);
      OthersCoherentIff(r.cache, s.mem, addr, r.mem);
      NextLineKeptIff(s.mem, addr, Line(s.mem, tag));
      hide Coherent, Overwrite, Line, Resident, LineOf, DirtyHit, InvalidateLine, NextTag;
    }
  }

  lemma DropResidency(s: State, addr: u32)
    requires Coherent(s.cache, s.mem) && addr < SRAM_SIZE
    ensures var c := InvalidateLine(s, addr).cache;
      !Resident(c, addr / CACHE_LINE_SIZE) && (Resident(c, NextTag(addr)) <==> Resident(s.cache, NextTag(addr)))
  {
    ScrubLineResidency(s.cache, s.mem, addr / CACHE_LINE_SIZE, true);
  }

  lemma NextLineKeptIff(m: Memory, addr: u32, d: LineData)
    requires addr < SRAM_SIZE
    ensures NextTag(addr) != addr / CACHE_LINE_SIZE
    ensures Line(Overwrite(m, addr, d), NextTag(addr)) == Line(m, NextTag(addr))
       <==> SameStart(Line(m, NextTag(addr)), d, addr % CACHE_LINE_SIZE)
  {
    var next, o := NextTag(addr), addr % CACHE_LINE_SIZE;
    assert next != addr / CACHE_LINE_SIZE;
    OverwrittenLine(m, addr, d, next);
    hide Overwrite, Line, NextTag;
    var line, spilled := Line(m, next), d[CACHE_LINE_SIZE - o..] + Line(m, next)[o..];
    assert forall i: nat | i < o :: spilled[i] == d[CACHE_LINE_SIZE - o + i];
    if SameStart(line, d, o) {
      assert forall i: nat | i < CACHE_LINE_SIZE :: spilled[i] == line[i];
    } else {
      assert exists i: nat | i < o :: line[i] != spilled[i];
    }
  }

  /** With the address's own line gone, a block write at the address agrees with the cache iff the next line does. */
  lemma OthersCoherentIff(c: Cache, m: Memory, addr: u32, m': Memory)
    requires Coherent(c, m) && addr < SRAM_SIZE && !Resident(c, addr / CACHE_LINE_SIZE)
    requires m' == Overwrite(m, addr, Line(m, addr / CACHE_LINE_SIZE))
    ensures Coherent(c, m') <==> (Resident(c, NextTag(addr)) ==> Line(m', NextTag(addr)) == Line(m, NextTag(addr)))
  {
    hide Overwrite, Line, NextTag;
    if Coherent(c, m') && Resident(c, NextTag(addr)) {
      ResidentLine(c, m, NextTag(addr));
      ResidentLine(c, m', NextTag(addr));
    }
    if Resident(c, NextTag(addr)) ==> Line(m', NextTag(addr)) == Line(m, NextTag(addr)) {
      forall tag: u32 | tag < TOTAL_TAGS && Resident(c, tag)
        ensures Line(m', tag) == Line(m, tag)
      {
        OverwrittenLine(m, addr, Line(m, addr / CACHE_LINE_SIZE), tag);
      }
      SameLinesCoherent(c, m, m');
    }
  }

  lemma ResidentLine(c: Cache, m: Memory, tag: nat)
    requires Coherent(c, m) && tag < TOTAL_TAGS && Resident(c, tag)
    ensures c[tag % CACHE_NUM_SETS][Lookup(c[tag % CACHE_NUM_SETS], tag)].data == Line(m, tag)
  {
    assert SetCoherent(c[tag % CACHE_NUM_SETS], tag % CACHE_NUM_SETS, m);
  }

  lemma SameLinesCoherent(c: Cache, m: Memory, m': Memory)
    requires Coherent(c, m) && forall tag: u32 | tag < TOTAL_TAGS && Resident(c, tag) :: Line(m', tag) == Line(m, tag)
    ensures Coherent(c, m')
  {
    hide Line;
    forall k | 0 <= k < CACHE_NUM_SETS
      ensures SetCoherent(c[k], k, m')
    {
      assert SetCoherent(c[k], k, m);
      forall w | 0 <= w < CACHE_NUM_WAYS && c[k][w].valid
        ensures LineCoherent(c[k][w], k, m')
      {
        assert LineCoherent(c[k][w], k, m) && Holds(c[k][w], c[k][w].tag);
        assert Resident(c, c[k][w].tag);
      }
    }
  }

  lemma AlignedDropEffect(s: State, addr: u32)
    requires Coherent(s.cache, s.mem) && addr % CACHE_LINE_SIZE == 0
    ensures InvalidateLine(s, addr).mem == s.mem && Coherent(InvalidateLine(s, addr).cache, s.mem)
    ensures forall u: u32 :: LineDirty(InvalidateLine(s, addr).cache, u) ==> LineDirty(s.cache, u)
  {
    ScrubLineEffect(s.cache, s.mem, addr / CACHE_LINE_SIZE, true);
    InvalidateLineKeepsMemoryIff(s, addr);
    hide Coherent, LineDirty;
  }

  // ---------- Every public call ----------

  lemma PlainStepKeepsInv(s: State, op: Op)
    requires Inv(s) && Rounded(op) == op
    ensures Inv(PlainStep(s, op))
  {
    match op
    case Init => InitialInv(s.mem); AllocInvImpliesInv(Initial(s.mem));
    case AllocateFrame(pid) => TakeKeepsInv(s, pid);
    case FreeFrame(f) => ReleaseKeepsInv(s, f);
    case Map(pid, lp, f) => MapKeepsInv(s, pid, lp, f);
    case Unmap(pid, lp) => UnmapKeepsInv(s, pid, lp);
    case Read(pid, addr) => ReadKeepsInv(s, pid, addr);
    case Write(pid, addr, b) => WriteKeepsInv(s, pid, addr, b);
    case DropProcess(pid) => ScrubKeepsInv(s, pid, true);
    case DropLine(addr) => AlignedDropEffect(s, addr);
    case FlushAll => EmptyingEffect(s);
    case FlushPages(pid) => ScrubKeepsInv(s, pid, false);
    case DropAll => EmptyingEffect(s);
    case Malloc(pid, size) => MallocKeepsInv(s, pid, size);
    case Free(pid, addr) => FreeKeepsInv(s, pid, addr);
    case Realloc(pid, oldAddr, size) => ReallocKeepsInv(s, pid, oldAddr, size);
  }

  lemma ReadKeepsInv(s: State, pid: u8, addr: u32)
    requires Inv(s)
    ensures Inv(ReadByte(s, pid, addr))
  {
    ReadEffect(s, pid, addr);
    SameMapKeeps(s, ReadByte(s, pid, addr));
  }

  lemma WriteKeepsInv(s: State, pid: u8, addr: u32, b: u8)
    requires Inv(s)
    ensures Inv(WriteByte(s, pid, addr, b))
  {
    WriteEffect(s, pid, addr, b);
    SameMapKeeps(s, WriteByte(s, pid, addr, b));
  }

  lemma ScrubKeepsInv(s: State, pid: u8, drop: bool)
    requires Inv(s)
    ensures pid < MAX_PROCESSES ==> Inv(ScrubProcess(s, pid, drop, s.table[pid]))
  {
    if pid < MAX_PROCESSES {
      ScrubProcessEffect(s, pid, drop, s.table[pid]);
      SameMapKeeps(s, ScrubProcess(s, pid, drop, s.table[pid]));
    }
  }

  lemma MallocKeepsInv(s: State, pid: u8, size: u16)
    requires Inv(s)
    ensures Inv(PagedMalloc(s, pid, size).0)
  {
    if Requestable(pid, size) && Place(s.table, pid, size) < MAX_PAGES_PER_PROC {
      var m := MapRun(s, pid, Place(s.table, pid, size), PagesFor(size));
      MapRunKeepsInv(s, pid, Place(s.table, pid, size), PagesFor(size));
      UnmapRunKeepsInv(m.0, pid, Place(s.table, pid, size), m.1);
    }
  }

  lemma FreeKeepsInv(s: State, pid: u8, addr: u32)
    requires Inv(s)
    ensures Inv(PagedFree(s, pid, addr))
  {
    if addr != 0 && Mapped(s.table, pid, addr) {
      UnmapRunKeepsInv(s, pid, PageOf(addr), FreedPages(s.table, pid, addr));
    }
  }

  lemma {:induction false} CopyKeepsInv(s: State, pid: u8, from: u32, to: u32, n: nat)
    requires Inv(s)
    ensures Inv(CopyBytes(s, pid, from, to, n))
    decreases n
  {
    hide Inv, CopyBytes;
    CopyNone(s, pid, from, to);
    if n > 0 {
      var t := CopyBytes(s, pid, from, to, n - 1);
      CopyNext(s, pid, from, to, n);
      CopyKeepsInv(s, pid, from, to, n - 1);
      ReadKeepsInv(t, pid, At(from, n - 1));
      WriteKeepsInv(ReadByte(t, pid, At(from, n - 1)), pid, At(to, n - 1), Peek(t, pid, At(from, n - 1)));
    }
  }

  lemma ReallocKeepsInv(s: State, pid: u8, oldAddr: u32, size: u16)
    requires Inv(s)
    ensures Inv(PagedRealloc(s, pid, oldAddr, size).0)
  {
    hide Inv;
    MallocKeepsInv(s, pid, size);
    FreeKeepsInv(s, pid, oldAddr);
    if Mapped(s.table, pid, oldAddr) {
      var m, len := PagedMalloc(s, pid, size), FreedPages(s.table, pid, oldAddr) * PAGE_SIZE;
      CopyKeepsInv(m.0, pid, oldAddr, m.1, len);
      FreeKeepsInv(CopyBytes(m.0, pid, oldAddr, m.1, len), pid, oldAddr);
    }
  }

  /** Every public call on every state: frames stay counted and lines in their sets, no tag held twice. */
  lemma StepKeepsSound(s: State, op: Op)
    requires Sound(s)
    ensures Sound(Step(s, op))
  {
    hide Step, PlainStep, Rounded, Inv, Sound, Alike, Repaired;
    var r := SoundRepaired(s);
    StepAlike(s, r, op);
    RoundedFixed(op);
    PlainStepKeepsInv(r, Rounded(op));
    InvSound(PlainStep(r, Rounded(op)));
    AlikeKeeps(Step(s, op), PlainStep(r, Rounded(op)));
  }

  lemma SoundRepaired(s: State) returns (r: State)
    requires Sound(s)
    ensures Inv(r) && Alike(s, r)
  {
    r := Repaired(s);
    RepairedCoherent(s);
  }

  lemma RoundedFixed(op: Op)
    ensures Rounded(Rounded(op)) == Rounded(op)
    ensures !op.DropLine? ==> Rounded(op) == op
  {
  }

  /** The call drops no line whose spill a cached line would miss. */
  predicate Safe(s: State, op: Op) { op.DropLine? ==> SpillSafe(s, op.addr) }

  /** From a coherent state a call leads to a coherent state iff it is safe. */
  lemma StepKeepsCoherentIff(s: State, op: Op)
    requires Inv(s)
    ensures Coherent(Step(s, op).cache, Step(s, op).mem) <==> Safe(s, op)
  {
    if op.DropLine? {
      DropKeepsCoherentIff(s, op.addr);
    } else {
      hide Step, PlainStep, Inv;
      InvSound(s);
      StepRedundant(s, op);
      RoundedFixed(op);
      PlainStepKeepsInv(s, op);
      InvSound(PlainStep(s, op));
    }
  }

  lemma SafeStepKeepsInv(s: State, op: Op)
    requires Inv(s) && Safe(s, op)
    ensures Inv(Step(s, op))
  {
    hide Inv, Sound, Step, Coherent, Safe;
    InvSound(s);
    StepKeepsSound(s, op);
    StepKeepsCoherentIff(s, op);
    InvSound(Step(s, op));
  }

  /** After any run of public calls whatever: each valid line lies in its set, no tag is held twice, a frame is free
      iff unreferenced, and no frame has more than one reference beyond its mappings. */
  lemma {:induction false} RunKeepsSound(s: State, ops: seq<Op>)
    requires Sound(s)
    ensures Sound(Run(s, ops))
  {
    hide Sound;
    if ops != [] {
      RunKeepsSound(s, ops[..|ops| - 1]);
      StepKeepsSound(Run(s, ops[..|ops| - 1]), ops[|ops| - 1]);
    }
  }

  /** Every call of the run is safe where it is made. */
  predicate AllSafe(s: State, ops: seq<Op>) {
    ops == [] || (AllSafe(s, ops[..|ops| - 1]) && Safe(Run(s, ops[..|ops| - 1]), ops[|ops| - 1]))
  }

  /** Cache and memory agree before, during and after the run. */
  ghost predicate CoherentThroughout(s: State, ops: seq<Op>) {
    Coherent(Run(s, ops).cache, Run(s, ops).mem) && (ops != [] ==> CoherentThroughout(s, ops[..|ops| - 1]))
  }

  /** Cache and memory agree all along a run iff every dropped line is dropped safely. */
  lemma {:induction false} CoherentThroughoutIff(s: State, ops: seq<Op>)
    requires Inv(s)
    ensures CoherentThroughout(s, ops) <==> AllSafe(s, ops)
  {
    hide Coherent, Inv, Safe, Sound;
    InvSound(s);
    if ops != [] {
      var before := ops[..|ops| - 1];
      CoherentThroughoutIff(s, before);
      RunKeepsSound(s, before);
      if AllSafe(s, before) {
        assert Coherent(Run(s, before).cache, Run(s, before).mem);
        InvSound(Run(s, before));
        StepKeepsCoherentIff(Run(s, before), ops[|ops| - 1]);
      }
    }
  }

  lemma SafeRunKeepsInv(s: State, ops: seq<Op>)
    requires Inv(s) && AllSafe(s, ops)
    ensures Inv(Run(s, ops))
  {
    hide Run, Inv, AllSafe;
    CoherentThroughoutIff(s, ops);
    InvSound(s);
    RunKeepsSound(s, ops);
    InvSound(Run(s, ops));
  }

  /** `invalidateLine` is only given addresses where a line starts. */
  predicate AllAligned(ops: seq<Op>) { forall i | 0 <= i < |ops| :: Rounded(ops[i]) == ops[i] }

  /** Runs that only give `invalidateLine` addresses of lines are safe, with nothing to check on the way. */
  lemma {:induction false} AlignedIsSafe(s: State, ops: seq<Op>)
    requires AllAligned(ops)
    ensures AllSafe(s, ops)
  {
    hide Run;
    if ops != [] {
      AlignedIsSafe(s, ops[..|ops| - 1]);
      assert Rounded(ops[|ops| - 1]) == ops[|ops| - 1];
    }
  }

  /** No frame is ever up for eviction: `findVictimPage` has no candidate in any reachable state. */
  lemma NoVictimInRuns(mem: Memory, ops: seq<Op>, f: FrameIndex)
    ensures var s := Run(Initial(mem), ops);
      && !(s.frames[f].status != PageFree && s.frames[f].refCount == 0)
      && s.frames[f].refCount <= Mappings(s.table, f) + 1
  {
    InitialInv(mem);
    AllocInvImpliesInv(Initial(mem));
    InvSound(Initial(mem));
    RunKeepsSound(Initial(mem), ops);
    assert FrameCounted(Run(Initial(mem), ops).frames[f], Mappings(Run(Initial(mem), ops).table, f));
  }
}
