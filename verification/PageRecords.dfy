/** Page records over whole runs: the access count and the dirty bit of a mapped page say how it was used since. */
module PageRecords {
  import opened Words
  import opened Sram
  import opened CacheSets
  import opened PageCacheModel
  import opened PageCacheInvariants
  import opened PageCacheSteps
  import opened PagedAllocator
  import opened PagedLifetimes
  import opened PageCacheRuns
  import opened WrittenBack

  // ---------- pagedRealloc as a run of the other calls ----------

  /** The calls that copy n bytes: each byte is read from the old block and written to the new one. */
  function CopyCalls(s: State, pid: u8, from: u32, to: u32, n: nat): seq<Op> {
    if n == 0 then []
    else
      var t := Code.CopyBytes(s, pid, from, to, n - 1);
      CopyCalls(s, pid, from, to, n - 1)
      + [Read(pid, At(from, n - 1)), Write(pid, At(to, n - 1), Code.CachedByte(t, pid, At(from, n - 1)))]
  }

  /** The calls a call to `pagedRealloc` amounts to; any other call is itself. */
  function Expanded(s: State, op: Op): seq<Op> {
    match op
    case Realloc(pid, oldAddr, size) =>
      if oldAddr == 0 then [Malloc(pid, size)]
      else if size == 0 then [Free(pid, oldAddr)]
      else if !Mapped(s.table, pid, oldAddr) || size <= FreedPages(s.table, pid, oldAddr) * PAGE_SIZE then []
      else
        var m := Code.PagedMalloc(s, pid, size);
        if m.1 == 0 then [Malloc(pid, size)]
        else [Malloc(pid, size)]
             + CopyCalls(m.0, pid, oldAddr, m.1, FreedPages(s.table, pid, oldAddr) * PAGE_SIZE)
             + [Free(pid, oldAddr)]
    case _ => [op]
  }

  /** The run with every `pagedRealloc` replaced by the calls it amounts to. */
  function ExpandedRun(s: State, ops: seq<Op>): seq<Op> {
    if ops == [] then []
    else ExpandedRun(s, ops[..|ops| - 1]) + Expanded(Run(s, ops[..|ops| - 1]), ops[|ops| - 1])
  }

  lemma {:induction false} RunJoined(s: State, ops: seq<Op>, more: seq<Op>)
    ensures Run(s, ops + more) == Run(Run(s, ops), more)
  {
    hide Step;
    if more == [] {
      assert ops + more == ops;
    } else {
      var n := |ops + more| - 1;
      assert (ops + more)[..n] == ops + more[..|more| - 1];
      RunJoined(s, ops, more[..|more| - 1]);
    }
  }

  lemma RunOne(s: State, op: Op)
    ensures Run(s, [op]) == Step(s, op)
  {
    assert [op][..0] == [];
    assert Run(s, [op][..0]) == s;
  }

  lemma RunThen(s: State, ops: seq<Op>, op: Op)
    ensures Run(s, ops + [op]) == Step(Run(s, ops), op)
  {
    RunJoined(s, ops, [op]);
    RunOne(Run(s, ops), op);
  }

  lemma {:induction false} CopyIsRun(s: State, pid: u8, from: u32, to: u32, n: nat)
    ensures Run(s, CopyCalls(s, pid, from, to, n)) == Code.CopyBytes(s, pid, from, to, n)
    ensures forall op | op in CopyCalls(s, pid, from, to, n) :: op.Read? || op.Write?
  {
    hide Code.ReadByte, Code.WriteByte, Code.CachedByte, At;
    if n > 0 {
      var t, calls := Code.CopyBytes(s, pid, from, to, n - 1), CopyCalls(s, pid, from, to, n - 1);
      var read := Read(pid, At(from, n - 1));
      var write := Write(pid, At(to, n - 1), Code.CachedByte(t, pid, At(from, n - 1)));
      CopyIsRun(s, pid, from, to, n - 1);
      hide Run;
      RunThen(s, calls, read);
      RunThen(s, calls + [read], write);
      assert CopyCalls(s, pid, from, to, n) == calls + [read] + [write];
    }
  }

  /** `pagedRealloc` is the run of an allocation, byte reads and writes, and a free, with the same final state. */
  lemma ReallocIsRun(s: State, op: Op)
    ensures Run(s, Expanded(s, op)) == Step(s, op)
    ensures forall o | o in Expanded(s, op) :: !o.Realloc?
  {
    hide Run, Code.CopyBytes, Code.PagedFree, CopyCalls, Code.PagedMalloc, RunLength, Mapped;
    RunOne(s, op);
    assert Run(s, []) == s by { RunEmpty(s); }
    if op.Realloc? {
      var pid, oldAddr, size := op.pid, op.oldAddr, op.size;
      RunOne(s, Malloc(pid, size));
      RunOne(s, Free(pid, oldAddr));
      if Mapped(s.table, pid, oldAddr) {
        var m, n := Code.PagedMalloc(s, pid, size), FreedPages(s.table, pid, oldAddr) * PAGE_SIZE;
        var copies := CopyCalls(m.0, pid, oldAddr, m.1, n);
        CopyIsRun(m.0, pid, oldAddr, m.1, n);
        RunJoined(s, [Malloc(pid, size)], copies);
        RunThen(s, [Malloc(pid, size)] + copies, Free(pid, oldAddr));
      }
    }
  }

  lemma RunEmpty(s: State)
    ensures Run(s, []) == s
  {
  }

  /** Every run is one without `pagedRealloc`. */
  lemma {:induction false} RunExpands(s: State, ops: seq<Op>)
    ensures Run(s, ExpandedRun(s, ops)) == Run(s, ops)
    ensures forall op | op in ExpandedRun(s, ops) :: !op.Realloc?
  {
    hide Expanded, Step;
    if ops != [] {
      var before, op := ops[..|ops| - 1], ops[|ops| - 1];
      RunExpands(s, before);
      ReallocIsRun(Run(s, before), op);
      RunJoined(s, ExpandedRun(s, before), Expanded(Run(s, before), op));
    }
  }

  // ---------- Array accesses as runs ----------

  function Reads(pid: u8, addr: u32, len: nat): seq<Op> {
    seq<Op>(len, i requires 0 <= i < len => Read(pid, At(addr, i)))
  }

  function Writes(pid: u8, addr: u32, data: seq<u8>): seq<Op> {
    seq<Op>(|data|, i requires 0 <= i < |data| => Write(pid, At(addr, i), data[i]))
  }

  /** `cacheReadArray` is the run of the byte reads in order: it leaves their state and hands out their results. */
  lemma {:induction false} ReadArrayIsRun(s: State, pid: u8, addr: u32, len: nat)
    ensures Run(s, Reads(pid, addr, len)) == Code.ReadArray(s, pid, addr, len)
    ensures Results(s, Reads(pid, addr, len)) == Code.CachedBytes(s, pid, addr, len)
  {
    hide Code.ReadByte, Code.CachedByte, At;
    if len > 0 {
      assert Reads(pid, addr, len)[..len - 1] == Reads(pid, addr, len - 1);
      ReadArrayIsRun(s, pid, addr, len - 1);
    }
  }

  /** `cacheWriteArray` is the run of the byte writes in order. */
  lemma {:induction false} WriteArrayIsRun(s: State, pid: u8, addr: u32, data: seq<u8>)
    ensures Run(s, Writes(pid, addr, data)) == Code.WriteArray(s, pid, addr, data)
    decreases |data|
  {
    hide Code.WriteByte, Run;
    RunEmpty(s);
    assert data == [] ==> Writes(pid, addr, data) == [];
    if data != [] {
      var first := Write(pid, addr, data[0]);
      WritesSplit(pid, addr, data);
      RunOne(s, first);
      RunJoined(s, [first], Writes(pid, At(addr, 1), data[1..]));
      WriteArrayIsRun(Code.WriteByte(s, pid, addr, data[0]), pid, At(addr, 1), data[1..]);
    }
  }

  lemma WritesSplit(pid: u8, addr: u32, data: seq<u8>)
    requires data != []
    ensures Writes(pid, addr, data) == [Write(pid, addr, data[0])] + Writes(pid, At(addr, 1), data[1..])
  {
    assert At(addr, 0) == addr;
    assert forall i: nat :: At(At(addr, 1), i) == At(addr, i + 1);
  }

  // ---------- What one call does to the record of a page ----------

  /** The call maps the page, or the page was not mapped before it. */
  predicate Renewed(t: PageTable, op: Op, p: nat, l: nat)
    requires p < MAX_PROCESSES && l < MAX_PAGES_PER_PROC
  {
    !t[p][l].valid || op.Init? || (op.Map? && op.pid == p && op.lp == l && op.f < MAX_PHYSICAL_PAGES)
  }

  /** The call is a cached access to an address on the page. */
  predicate Accesses(op: Op, p: nat, l: nat) {
    (op.Read? || op.Write?) && op.pid == p && PageOf(op.addr) == l
  }

  /** The record of a page that is mapped after the call. */
  ghost predicate Recorded(t: PageTable, op: Op, p: nat, l: nat, e: Pte)
    requires p < MAX_PROCESSES && l < MAX_PAGES_PER_PROC
  {
    && e.accessCount == (if Renewed(t, op, p, l) then 0
                         else if Accesses(op, p, l) then Wrap16(t[p][l].accessCount + 1)
                         else t[p][l].accessCount)
    && e.dirty == (!Renewed(t, op, p, l) && op != FlushPages(p)
                   && (t[p][l].dirty || (op.Write? && Accesses(op, p, l))))
  }

  lemma StepRecord(s: State, op: Op, p: nat, l: nat)
    requires Shaped(s.cache) && !op.Realloc? && p < MAX_PROCESSES && l < MAX_PAGES_PER_PROC
    requires Step(s, op).table[p][l].valid
    ensures Recorded(s.table, op, p, l, Step(s, op).table[p][l])
  {
    hide Shaped, Recorded, Code.ReadByte, Code.WriteByte, MapPage, Code.UnmapPage, Code.InvalidateProcess;
    hide Code.FlushProcess, Code.PagedMalloc, Code.PagedFree;
    match op
    case Map(pid, lp, f) => MapRecord(s, pid, lp, f, p, l);
    case Unmap(pid, lp) => UnmapRecord(s, pid, lp, p, l);
    case Read(pid, addr) => ReadRecord(s, pid, addr, p, l);
    case Write(pid, addr, b) => WriteRecord(s, pid, addr, b, p, l);
    case DropProcess(pid) => ScrubRecord(s, pid, p, l);
    case FlushPages(pid) => ScrubRecord(s, pid, p, l);
    case Malloc(pid, size) => MallocRecord(s, pid, size, p, l);
    case Free(pid, addr) => FreeRecord(s, pid, addr, p, l);
    case Init => InitialEmpty(s.mem);
    case _ =>
      UntouchedRecord(s, op, p, l);
  }

  /** Initialisation leaves no page mapped, no frame in use, no line cached and the logical clock at zero. */
  lemma InitialEmpty(m: Memory)
    ensures var s := Initial(m);
      && (forall p, l | 0 <= p < MAX_PROCESSES && 0 <= l < MAX_PAGES_PER_PROC :: !s.table[p][l].valid)
      && (forall f: FrameIndex :: s.frames[f].status == PageFree && s.frames[f].refCount == 0)
      && (forall tag: u32 :: !Resident(s.cache, tag))
      && s.mem == m && s.clock == 0
  {
    hide Lookup;
  }

  lemma UntouchedRecord(s: State, op: Op, p: nat, l: nat)
    requires op.AllocateFrame? || op.FreeFrame? || op.DropLine? || op.FlushAll? || op.DropAll?
    requires p < MAX_PROCESSES && l < MAX_PAGES_PER_PROC && s.table[p][l].valid
    ensures Step(s, op).table == s.table && Recorded(s.table, op, p, l, s.table[p][l])
  {
  }

  lemma MapRecord(s: State, pid: u8, lp: u16, f: u16, p: nat, l: nat)
    requires p < MAX_PROCESSES && l < MAX_PAGES_PER_PROC
    ensures var r := MapPage(s, pid, lp, f);
      && (r.table[p][l].valid ==> Recorded(s.table, Map(pid, lp, f), p, l, r.table[p][l]))
      && (Mappable(pid, lp, f) && p == pid && l == lp ==> r.table[p][l].lastAccess == Tick(s.clock))
  {
    hide ReleaseFrame, Tick;
  }

  lemma UnmapRecord(s: State, pid: u8, lp: u16, p: nat, l: nat)
    requires p < MAX_PROCESSES && l < MAX_PAGES_PER_PROC && Code.UnmapPage(s, pid, lp).table[p][l].valid
    ensures Recorded(s.table, Unmap(pid, lp), p, l, Code.UnmapPage(s, pid, lp).table[p][l])
  {
    hide Code.TagsWritten, ScrubFrame;
  }

  /** A cached access stamps the page, and a tick later its frame, and counts itself; a write marks the page dirty. */
  lemma AccessTables(s: State, pid: u8, addr: u32, b: u8, p: nat, l: nat)
    requires p < MAX_PROCESSES && l < MAX_PAGES_PER_PROC
    ensures var r, w, e := Code.ReadByte(s, pid, addr), Code.WriteByte(s, pid, addr, b), s.table[p][l];
      var counted := e.(accessCount := Wrap16(e.accessCount + 1), lastAccess := Tick(Tick(s.clock)));
      var hit := e.valid && p == pid && l == PageOf(addr);
      && r.table[p][l] == (if hit then counted else e)
      && w.table[p][l] == (if hit then counted.(dirty := true) else e)
    ensures var r, w := Code.ReadByte(s, pid, addr), Code.WriteByte(s, pid, addr, b);
      Mapped(s.table, pid, addr) ==>
        var f := s.table[pid][PageOf(addr)].physicalPage;
        && r.clock == w.clock == Tick(Tick(Tick(s.clock)))
        && r.frames == w.frames == s.frames[f := s.frames[f].(accessTime := r.clock)]
  {
    hide Translate, AccessCache, StoreCache, Code.Displaced, PageOf, Tick;
  }

  lemma ReadRecord(s: State, pid: u8, addr: u32, p: nat, l: nat)
    requires p < MAX_PROCESSES && l < MAX_PAGES_PER_PROC && Code.ReadByte(s, pid, addr).table[p][l].valid
    ensures Recorded(s.table, Read(pid, addr), p, l, Code.ReadByte(s, pid, addr).table[p][l])
  {
    AccessTables(s, pid, addr, 0, p, l);
    hide Code.ReadByte, PageOf, Wrap16, Tick;
  }

  lemma WriteRecord(s: State, pid: u8, addr: u32, b: u8, p: nat, l: nat)
    requires p < MAX_PROCESSES && l < MAX_PAGES_PER_PROC && Code.WriteByte(s, pid, addr, b).table[p][l].valid
    ensures Recorded(s.table, Write(pid, addr, b), p, l, Code.WriteByte(s, pid, addr, b).table[p][l])
  {
    AccessTables(s, pid, addr, b, p, l);
    hide Code.WriteByte, PageOf, Wrap16, Tick;
  }

  lemma ScrubRecord(s: State, pid: u8, p: nat, l: nat)
    requires Shaped(s.cache) && p < MAX_PROCESSES && l < MAX_PAGES_PER_PROC
    ensures var d, f := Code.InvalidateProcess(s, pid).table[p][l], Code.FlushProcess(s, pid).table[p][l];
      && (d.valid ==> Recorded(s.table, DropProcess(pid), p, l, d))
      && (f.valid ==> Recorded(s.table, FlushPages(pid), p, l, f))
  {
    hide Shaped, Scrubbed, Code.InvalidateProcess, Code.FlushProcess;
    ProcessCalls(s, pid);
  }

  lemma MallocRecord(s: State, pid: u8, size: u16, p: nat, l: nat)
    requires p < MAX_PROCESSES && l < MAX_PAGES_PER_PROC && Code.PagedMalloc(s, pid, size).0.table[p][l].valid
    ensures Recorded(s.table, Malloc(pid, size), p, l, Code.PagedMalloc(s, pid, size).0.table[p][l])
  {
    hide Code.PagedMalloc, AllocInv, Exact, BusyKept, Place;
    if Granted(s, pid, size) {
      MallocGranted(s, pid, size);
    } else {
      MallocRefused(s, pid, size);
    }
  }

  lemma FreeRecord(s: State, pid: u8, addr: u32, p: nat, l: nat)
    requires p < MAX_PROCESSES && l < MAX_PAGES_PER_PROC && Code.PagedFree(s, pid, addr).table[p][l].valid
    ensures Recorded(s.table, Free(pid, addr), p, l, Code.PagedFree(s, pid, addr).table[p][l])
  {
    FreeOutcome(s, pid, addr);
    hide Code.PagedFree, Coherent, PageOf;
  }

  // ---------- Over runs ----------

  /** How often the page was accessed in the run since it was last mapped. */
  ghost function Uses(s: State, ops: seq<Op>, p: nat, l: nat): nat
    requires p < MAX_PROCESSES && l < MAX_PAGES_PER_PROC
  {
    if ops == [] then s.table[p][l].accessCount
    else
      var before, op := ops[..|ops| - 1], ops[|ops| - 1];
      if Renewed(Run(s, before).table, op, p, l) then 0
      else Uses(s, before, p, l) + if Accesses(op, p, l) then 1 else 0
  }

  /** The page was written in the run since it was last mapped or its process flushed. */
  ghost predicate WrittenIn(s: State, ops: seq<Op>, p: nat, l: nat)
    requires p < MAX_PROCESSES && l < MAX_PAGES_PER_PROC
  {
    if ops == [] then s.table[p][l].dirty
    else
      var before, op := ops[..|ops| - 1], ops[|ops| - 1];
      !Renewed(Run(s, before).table, op, p, l) && op != FlushPages(p)
      && (WrittenIn(s, before, p, l) || (op.Write? && Accesses(op, p, l)))
  }

  lemma SoundShaped(s: State)
    requires Sound(s)
    ensures Shaped(s.cache)
  {
  }

  lemma {:induction false} RecordsOfRun(s: State, ops: seq<Op>, p: nat, l: nat)
    requires Sound(s) && p < MAX_PROCESSES && l < MAX_PAGES_PER_PROC && Run(s, ops).table[p][l].valid
    requires forall op | op in ops :: !op.Realloc?
    ensures Run(s, ops).table[p][l].accessCount == Wrap16(Uses(s, ops, p, l))
    ensures Run(s, ops).table[p][l].dirty <==> WrittenIn(s, ops, p, l)
  {
    hide Sound, Step, Accesses;
    if ops != [] {
      var before, op := ops[..|ops| - 1], ops[|ops| - 1];
      var t := Run(s, before);
      RunKeepsSound(s, before);
      SoundShaped(t);
      StepRecord(t, op, p, l);
      if t.table[p][l].valid {
        RecordsOfRun(s, before, p, l);
      }
    }
  }

  /** After any run the record of a mapped page tells how the page was used since it was mapped: the access count is the
      number of cached reads and writes, those of `pagedRealloc` included, cut to 16 bits, and the dirty bit says if
      one was a write that no flush of the process followed. */
  lemma PageRecordsTell(s: State, ops: seq<Op>, p: nat, l: nat)
    requires Sound(s) && p < MAX_PROCESSES && l < MAX_PAGES_PER_PROC && Run(s, ops).table[p][l].valid
    ensures Run(s, ops).table[p][l].accessCount == Wrap16(Uses(s, ExpandedRun(s, ops), p, l))
    ensures Run(s, ops).table[p][l].dirty <==> WrittenIn(s, ExpandedRun(s, ops), p, l)
  {
    hide Run, Sound;
    RunExpands(s, ops);
    RecordsOfRun(s, ExpandedRun(s, ops), p, l);
  }
}
