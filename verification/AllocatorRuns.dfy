/** Runs of allocator calls: frames are never shared, never lost track of, and never come back. */
module AllocatorRuns {
  import opened Words
  import opened Sram
  import opened PageCacheModel
  import opened PageCacheInvariants
  import opened PageCacheSteps
  import opened PagedAllocator
  import opened PagedLifetimes
  import opened Writebacks
  import opened PageCacheRuns

  /** Allocation, cached access, flushing and invalidation; not the raw frame and page-table calls. */
  predicate AllocatorOp(op: Op) {
    !op.AllocateFrame? && !op.FreeFrame? && !op.Map? && !op.Unmap?
  }

  predicate AllocatorRun(ops: seq<Op>) { forall i | 0 <= i < |ops| :: AllocatorOp(ops[i]) }

  lemma MallocKeepsAllocInv(s: State, pid: u8, size: u16)
    requires AllocInv(s)
    ensures AllocInv(PagedMalloc(s, pid, size).0)
  {
    if Granted(s, pid, size) { MallocGranted(s, pid, size); } else { MallocRefused(s, pid, size); }
  }

  lemma ScrubKeepsAllocInv(s: State, pid: u8, drop: bool)
    requires AllocInv(s)
    ensures pid < MAX_PROCESSES ==> AllocInv(ScrubProcess(s, pid, drop, s.table[pid]))
  {
    if pid < MAX_PROCESSES {
      ScrubProcessEffect(s, pid, drop, s.table[pid]);
      SameMapKeeps(s, ScrubProcess(s, pid, drop, s.table[pid]));
    }
  }

  lemma ReallocKeepsAllocInv(s: State, pid: u8, oldAddr: u32, size: u16)
    requires AllocInv(s)
    ensures AllocInv(PagedRealloc(s, pid, oldAddr, size).0)
  {
    hide AllocInv;
    MallocKeepsAllocInv(s, pid, size);
    FreeKeepsAllocInv(s, pid, oldAddr);
    if Mapped(s.table, pid, oldAddr) {
      var m, len := PagedMalloc(s, pid, size), FreedPages(s.table, pid, oldAddr) * PAGE_SIZE;
      CopyKeeps(m.0, pid, oldAddr, m.1, len);
      FreeKeepsAllocInv(CopyBytes(m.0, pid, oldAddr, m.1, len), pid, oldAddr);
    }
  }

  lemma EmptyingKeepsAllocInv(s: State)
    requires AllocInv(s)
    ensures AllocInv(FlushCache(s)) && AllocInv(InvalidateAll(s))
  {
    EmptyingEffect(s);
  }

  lemma DropLineKeepsAllocInv(s: State, addr: u32)
    requires AllocInv(s) && addr % CACHE_LINE_SIZE == 0
    ensures AllocInv(InvalidateLine(s, addr))
  {
    AlignedDropEffect(s, addr);
  }

  lemma PlainStepKeepsAllocInv(s: State, op: Op)
    requires AllocInv(s) && AllocatorOp(op) && Rounded(op) == op
    ensures AllocInv(PlainStep(s, op))
  {
    hide AllocInv;
    match op
    case Init => InitialInv(s.mem);
    case Read(pid, addr) => ReadKeepsAllocInv(s, pid, addr);
    case Write(pid, addr, b) => WriteKeepsAllocInv(s, pid, addr, b);
    case DropProcess(pid) => ScrubKeepsAllocInv(s, pid, true);
    case DropLine(addr) => DropLineKeepsAllocInv(s, addr);
    case FlushAll => EmptyingKeepsAllocInv(s);
    case FlushPages(pid) => ScrubKeepsAllocInv(s, pid, false);
    case DropAll => EmptyingKeepsAllocInv(s);
    case Malloc(pid, size) => MallocKeepsAllocInv(s, pid, size);
    case Free(pid, addr) => FreeKeepsAllocInv(s, pid, addr);
    case Realloc(pid, oldAddr, size) => ReallocKeepsAllocInv(s, pid, oldAddr, size);
  }

  lemma AllocSoundRepaired(s: State) returns (r: State)
    requires AllocSound(s)
    ensures AllocInv(r) && Alike(s, r)
  {
    r := Repaired(s);
    RepairedCoherent(s);
    AlikeKeeps(s, r);
  }

  /** Every allocator call, on whatever data is cached: frames stay exactly counted, owned by the process that maps
      them and mapped once, and every dirty line belongs to a page marked dirty. */
  lemma StepKeepsAllocSound(s: State, op: Op)
    requires AllocSound(s) && AllocatorOp(op)
    ensures AllocSound(Step(s, op))
  {
    hide Step, PlainStep, Rounded, AllocInv, AllocSound, Alike;
    var r := AllocSoundRepaired(s);
    StepAlike(s, r, op);
    RoundedAllocatorOp(op);
    PlainStepKeepsAllocInv(r, Rounded(op));
    AllocInvSound(PlainStep(r, Rounded(op)));
    AlikeKeeps(Step(s, op), PlainStep(r, Rounded(op)));
  }

  lemma RoundedAllocatorOp(op: Op)
    requires AllocatorOp(op)
    ensures AllocatorOp(Rounded(op)) && Rounded(Rounded(op)) == Rounded(op)
    ensures Rounded(op).Init? == op.Init?
  {
  }

  lemma {:induction false} RunKeepsAllocSound(s: State, ops: seq<Op>)
    requires AllocSound(s) && AllocatorRun(ops)
    ensures AllocSound(Run(s, ops))
  {
    hide AllocSound;
    if ops != [] {
      RunKeepsAllocSound(s, ops[..|ops| - 1]);
      StepKeepsAllocSound(Run(s, ops[..|ops| - 1]), ops[|ops| - 1]);
    }
  }

  lemma InitialAllocSound(mem: Memory)
    ensures AllocInv(Initial(mem)) && AllocSound(Initial(mem)) && Inv(Initial(mem))
  {
    InitialInv(mem);
    AllocInvSound(Initial(mem));
    AllocInvImpliesInv(Initial(mem));
  }

  /** In a run that drops lines safely the cache agrees with memory as well. */
  lemma SafeRunKeepsAllocInv(s: State, ops: seq<Op>)
    requires AllocInv(s) && AllocatorRun(ops) && AllSafe(s, ops)
    ensures AllocInv(Run(s, ops))
  {
    hide Run, AllocatorRun, AllSafe;
    AllocInvSound(s);
    AllocInvImpliesInv(s);
    SafeRunKeepsInv(s, ops);
    RunKeepsAllocSound(s, ops);
    AllocInvSound(Run(s, ops));
  }

  // ---------- Frames over a run ----------

  /** The frames the mapping loop of a malloc takes: what it needs, or all that are left. */
  function MallocTakes(s: State, pid: u8, size: u16): nat {
    if !Requestable(pid, size) || Place(s.table, pid, size) == MAX_PAGES_PER_PROC then 0
    else if PagesFor(size) <= FreeCount(s.frames) then PagesFor(size)
    else FreeCount(s.frames)
  }

  function Takes(s: State, op: Op): nat {
    match op
    case Malloc(pid, size) => MallocTakes(s, pid, size)
    case Realloc(pid, oldAddr, size) =>
      if oldAddr == 0 || Grows(s.table, pid, oldAddr, size) then MallocTakes(s, pid, size) else 0
    case _ => 0
  }

  lemma {:induction false} SameStatusCount(a: seq<Frame>, b: seq<Frame>)
    requires |a| == |b| && forall f | 0 <= f < |a| :: b[f].status == a[f].status
    ensures FreeCount(b) == FreeCount(a)
  {
    if a != [] { SameStatusCount(a[..|a| - 1], b[..|b| - 1]); }
  }

  lemma MallocFrames(s: State, pid: u8, size: u16)
    requires Exact(s.frames, s.table)
    ensures FreeCount(Code.PagedMalloc(s, pid, size).0.frames) == FreeCount(s.frames) - MallocTakes(s, pid, size)
  {
    hide Exact, FreeCount, Code.PagedMalloc, AllocInv;
    if Granted(s, pid, size) { MallocGranted(s, pid, size); } else { MallocRefused(s, pid, size); }
  }

  lemma ReallocFrames(s: State, pid: u8, oldAddr: u32, size: u16)
    requires Exact(s.frames, s.table)
    ensures FreeCount(Code.PagedRealloc(s, pid, oldAddr, size).0.frames)
         == FreeCount(s.frames) - Takes(s, Realloc(pid, oldAddr, size))
  {
    hide Exact, FreeCount, Code.PagedMalloc, Code.PagedFree, Code.CopyBytes, MallocTakes, AllocInv;
    MallocFrames(s, pid, size);
    FreeFrames(s, pid, oldAddr);
    if Grows(s.table, pid, oldAddr, size) && Granted(s, pid, size) {
      var m, len := Code.PagedMalloc(s, pid, size), FreedPages(s.table, pid, oldAddr) * PAGE_SIZE;
      var c := Code.CopyBytes(m.0, pid, oldAddr, m.1, len);
      MallocGranted(s, pid, size);
      CopyKeepsMap(m.0, pid, oldAddr, m.1, len);
      SameMapKeeps(m.0, c);
      SameStatusCount(m.0.frames, c.frames);
      FreeFrames(c, pid, oldAddr);
    } else if Grows(s.table, pid, oldAddr, size) {
      MallocRefused(s, pid, size);
    }
  }

  lemma FreeFrames(s: State, pid: u8, addr: u32)
    requires Exact(s.frames, s.table)
    ensures FreeCount(Code.PagedFree(s, pid, addr).frames) == FreeCount(s.frames)
  {
    FreeOutcome(s, pid, addr);
    FreeKeepsFrames(s, pid, addr);
  }

  /** Only allocation changes the number of free frames; freeing never does. */
  lemma StepFrames(s: State, op: Op)
    requires Exact(s.frames, s.table) && AllocatorOp(op) && !op.Init?
    ensures FreeCount(Step(s, op).frames) == FreeCount(s.frames) - Takes(s, op)
  {
    hide Exact, FreeCount, MallocTakes, Code.ReadByte, Code.WriteByte, Code.PagedMalloc, Code.PagedFree;
    hide Code.PagedRealloc, Code.SetsWritten;
    match op
    case Malloc(pid, size) => MallocFrames(s, pid, size);
    case Free(pid, addr) => FreeFrames(s, pid, addr);
    case Realloc(pid, oldAddr, size) => ReallocFrames(s, pid, oldAddr, size);
    case Read(pid, addr) => AccessKeepsMap(s, pid, addr, 0); SameStatusCount(s.frames, Step(s, op).frames);
    case Write(pid, addr, b) => AccessKeepsMap(s, pid, addr, b); SameStatusCount(s.frames, Step(s, op).frames);
    case DropProcess(pid) => if pid < MAX_PROCESSES { ScrubKeepsMap(s, pid, true, s.table[pid]); }
    case FlushPages(pid) => if pid < MAX_PROCESSES { ScrubKeepsMap(s, pid, false, s.table[pid]); }
    case _ =>
  }

  lemma AllocSoundExact(s: State)
    requires AllocSound(s)
    ensures Exact(s.frames, s.table)
  {
  }

  function TotalTaken(s: State, ops: seq<Op>): nat {
    if ops == [] then 0
    else TotalTaken(s, ops[..|ops| - 1]) + Takes(Run(s, ops[..|ops| - 1]), ops[|ops| - 1])
  }

  predicate NoInit(ops: seq<Op>) { forall i | 0 <= i < |ops| :: !ops[i].Init? }

  /** The free frames are those of the start less all frames ever taken, however much was freed in between. */
  lemma {:induction false} RunFrames(s: State, ops: seq<Op>)
    requires AllocSound(s) && AllocatorRun(ops) && NoInit(ops)
    ensures FreeCount(Run(s, ops).frames) == FreeCount(s.frames) - TotalTaken(s, ops)
  {
    hide AllocSound, FreeCount, Takes, Exact;
    if ops != [] {
      var before := ops[..|ops| - 1];
      RunFrames(s, before);
      RunKeepsAllocSound(s, before);
      AllocSoundExact(Run(s, before));
      StepFrames(Run(s, before), ops[|ops| - 1]);
    }
  }

  lemma {:induction false} AllFree(frames: seq<Frame>)
    requires forall f | 0 <= f < |frames| :: frames[f].status == PageFree
    ensures FreeCount(frames) == |frames|
  {
    if frames != [] { AllFree(frames[..|frames| - 1]); }
  }

  /** From initialisation on, the free pages are 512 less all frames taken, and a frame in use is counted exactly. */
  lemma FramesSinceInit(mem: Memory, ops: seq<Op>, f: FrameIndex)
    requires AllocatorRun(ops) && NoInit(ops)
    ensures var s := Run(Initial(mem), ops);
      && FreeCount(s.frames) == MAX_PHYSICAL_PAGES - TotalTaken(Initial(mem), ops)
      && (s.frames[f].status != PageFree ==> s.frames[f].refCount == Mappings(s.table, f) + 1)
      && (s.frames[f].status == PageFree ==> Mappings(s.table, f) == 0)
  {
    InitialAllocSound(mem);
    AllFree(Initial(mem).frames);
    RunFrames(Initial(mem), ops);
    RunKeepsAllocSound(Initial(mem), ops);
    assert FrameExact(Run(Initial(mem), ops).frames[f], Mappings(Run(Initial(mem), ops).table, f));
  }

  /** Once the free frames are used up no allocation succeeds again, whatever is freed. */
  lemma ExhaustionIsForever(s: State, ops: seq<Op>, pid: u8, size: u16)
    requires AllocSound(s) && FreeCount(s.frames) == 0 && AllocatorRun(ops) && NoInit(ops)
    ensures Code.PagedMalloc(Run(s, ops), pid, size).1 == 0 && !Granted(Run(s, ops), pid, size)
  {
    hide AllocSound, Run, Code.PagedMalloc, FreeCount;
    RunFrames(s, ops);
    MallocRefused(Run(s, ops), pid, size);
  }
}
