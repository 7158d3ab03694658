/** Over runs of allocator calls the valid pages of a process are always its first ones, so first fit always places a
    new block right behind all others: what that means for freeing and growing. */
module PackedPages {
  import opened Words
  import opened Sram
  import opened PageCacheModel
  import opened PageCacheInvariants
  import opened PagedAllocator
  import opened PagedLifetimes
  import opened Writebacks
  import opened PageCacheRuns
  import opened AllocatorRuns

  /** The valid entries come first. */
  predicate Packed(row: PageRow) {
    forall i, j | 0 <= i < j < MAX_PAGES_PER_PROC && row[j].valid :: row[i].valid
  }

  predicate AllPacked(t: PageTable) { forall p | 0 <= p < MAX_PROCESSES :: Packed(t[p]) }

  // ---------- Every allocator call keeps the pages packed ----------

  /** The least gap of a packed row starts right behind the valid entries. */
  lemma PackedGap(row: PageRow, start: nat, n: nat)
    requires Packed(row) && n > 0 && Fits(row, start, n)
    requires forall i: nat | i < start :: !Fits(row, i, n)
    ensures forall l | 0 <= l < MAX_PAGES_PER_PROC :: row[l].valid <==> l < start
  {
    assert !row[start].valid;
    forall l | 0 <= l < MAX_PAGES_PER_PROC
      ensures row[l].valid <==> l < start
    {
      if l < start && !row[l].valid {
        assert Fits(row, l, n);
      }
    }
  }

  lemma SameMapPacked(t: PageTable, u: PageTable)
    requires SameMap(t, u) && AllPacked(t)
    ensures AllPacked(u)
  {
  }

  lemma SameValidPacked(t: PageTable, u: PageTable)
    requires SameValid(t, u) && AllPacked(t)
    ensures AllPacked(u)
  {
  }

  lemma MallocKeepsPacked(s: State, pid: u8, size: u16)
    requires AllPacked(s.table)
    ensures AllPacked(Code.PagedMalloc(s, pid, size).0.table)
  {
    hide PagedMalloc, Code.PagedMalloc, AllPacked;
    var r := Code.PagedMalloc(s, pid, size).0;
    if Granted(s, pid, size) {
      MallocGranted(s, pid, size);
      PlaceIsFirstFit(s.table, pid, size);
      GrantPacked(s.table, r.table, s.frames, pid, Place(s.table, pid, size), PagesFor(size));
    } else {
      MallocRefused(s, pid, size);
      SameValidPacked(s.table, r.table);
    }
  }

  lemma GrantPacked(t: PageTable, u: PageTable, frames: FrameTable, pid: u8, start: nat, n: nat)
    requires pid < MAX_PROCESSES && n > 0 && AllPacked(t) && Fits(t[pid], start, n)
    requires forall k: nat | Fits(t[pid], k, n) :: start <= k
    requires FreshRun(frames, u[pid], start, n) && SameOutside(t, u, pid, start, n)
    ensures AllPacked(u)
  {
    PackedGap(t[pid], start, n);
    forall p | 0 <= p < MAX_PROCESSES
      ensures Packed(u[p])
    {
      assert Packed(t[p]);
      if p == pid {
        assert forall l | 0 <= l < MAX_PAGES_PER_PROC :: u[pid][l].valid <==> l < start + n;
      } else {
        assert forall l | 0 <= l < MAX_PAGES_PER_PROC :: u[p][l] == t[p][l];
      }
    }
  }

  lemma FreeKeepsPacked(s: State, pid: u8, addr: u32)
    requires AllPacked(s.table)
    ensures AllPacked(Code.PagedFree(s, pid, addr).table)
  {
    hide Code.PagedFree, PageOf;
    FreeOutcome(s, pid, addr);
    if addr != 0 && Mapped(s.table, pid, addr) {
      FreedPacked(s.table, Code.PagedFree(s, pid, addr).table, pid, PageOf(addr), FreedPages(s.table, pid, addr));
    }
  }

  lemma FreedPacked(t: PageTable, u: PageTable, pid: u8, start: nat, n: nat)
    requires pid < MAX_PROCESSES && start + n <= MAX_PAGES_PER_PROC && AllPacked(t)
    requires SameOutside(t, u, pid, start, n) && BoundedAbove(t[pid], start + n)
    requires forall l | start <= l < start + n :: !u[pid][l].valid
    ensures AllPacked(u)
  {
    forall p | 0 <= p < MAX_PROCESSES
      ensures Packed(u[p])
    {
      assert Packed(t[p]);
      if p == pid {
        assert forall l | 0 <= l < MAX_PAGES_PER_PROC :: u[pid][l].valid <==> l < start && t[pid][l].valid;
      } else {
        assert forall l | 0 <= l < MAX_PAGES_PER_PROC :: u[p][l] == t[p][l];
      }
    }
  }

  lemma ReallocKeepsPacked(s: State, pid: u8, oldAddr: u32, size: u16)
    requires AllPacked(s.table)
    ensures AllPacked(Code.PagedRealloc(s, pid, oldAddr, size).0.table)
  {
    hide AllPacked, Code.PagedMalloc, Code.PagedFree, Code.CopyBytes, SameMap;
    MallocKeepsPacked(s, pid, size);
    FreeKeepsPacked(s, pid, oldAddr);
    if Mapped(s.table, pid, oldAddr) {
      var m, len := Code.PagedMalloc(s, pid, size), FreedPages(s.table, pid, oldAddr) * PAGE_SIZE;
      var c := Code.CopyBytes(m.0, pid, oldAddr, m.1, len);
      CopyKeepsMap(m.0, pid, oldAddr, m.1, len);
      SameMapPacked(m.0.table, c.table);
      FreeKeepsPacked(c, pid, oldAddr);
    }
  }

  lemma ScrubKeepsPacked(s: State, pid: u8, drop: bool)
    requires AllPacked(s.table)
    ensures pid < MAX_PROCESSES ==> AllPacked(Code.ScrubProcess(s, pid, drop, s.table[pid]).table)
  {
    if pid < MAX_PROCESSES {
      ScrubKeepsMap(s, pid, drop, s.table[pid]);
      SameMapPacked(s.table, Code.ScrubProcess(s, pid, drop, s.table[pid]).table);
    }
  }

  lemma AccessKeepsPacked(s: State, pid: u8, addr: u32, b: u8)
    requires AllPacked(s.table)
    ensures AllPacked(Code.ReadByte(s, pid, addr).table) && AllPacked(Code.WriteByte(s, pid, addr, b).table)
  {
    hide AllPacked, Code.ReadByte, Code.WriteByte;
    AccessKeepsMap(s, pid, addr, b);
    SameMapPacked(s.table, Code.ReadByte(s, pid, addr).table);
    SameMapPacked(s.table, Code.WriteByte(s, pid, addr, b).table);
  }

  lemma StepKeepsPacked(s: State, op: Op)
    requires AllPacked(s.table) && AllocatorOp(op)
    ensures AllPacked(Step(s, op).table)
  {
    hide AllPacked, Code.ReadByte, Code.WriteByte, Code.PagedMalloc, Code.PagedFree, Code.PagedRealloc;
    hide Code.SetsWritten;
    match op
    case Init => InitialPacked(s.mem);
    case Read(pid, addr) => AccessKeepsPacked(s, pid, addr, 0);
    case Write(pid, addr, b) => AccessKeepsPacked(s, pid, addr, b);
    case DropProcess(pid) => ScrubKeepsPacked(s, pid, true);
    case FlushPages(pid) => ScrubKeepsPacked(s, pid, false);
    case Malloc(pid, size) => MallocKeepsPacked(s, pid, size);
    case Free(pid, addr) => FreeKeepsPacked(s, pid, addr);
    case Realloc(pid, oldAddr, size) => ReallocKeepsPacked(s, pid, oldAddr, size);
    case _ =>
  }

  lemma InitialPacked(mem: Memory)
    ensures AllPacked(Initial(mem).table)
  {
  }

  /** In every state an allocator run reaches, the valid pages of each process are its first ones. */
  lemma {:induction false} RunKeepsPacked(s: State, ops: seq<Op>)
    requires AllPacked(s.table) && AllocatorRun(ops)
    ensures AllPacked(Run(s, ops).table)
  {
    hide AllPacked, Step;
    if ops != [] {
      var before := ops[..|ops| - 1];
      RunKeepsPacked(s, before);
      StepKeepsPacked(Run(s, before), ops[|ops| - 1]);
    }
  }

  lemma RunPacked(mem: Memory, ops: seq<Op>)
    requires AllocatorRun(ops)
    ensures AllPacked(Run(Initial(mem), ops).table)
  {
    InitialPacked(mem);
    RunKeepsPacked(Initial(mem), ops);
  }

  // ---------- What it means for freeing and growing ----------

  /** In a packed row a new block goes right behind the last valid page, where any run ends. */
  lemma PackedPlace(t: PageTable, pid: u8, size: u16)
    requires AllPacked(t) && Requestable(pid, size) && Place(t, pid, size) < MAX_PAGES_PER_PROC
    ensures BoundedAbove(t[pid], Place(t, pid, size) + PagesFor(size))
    ensures forall a: u32 | Mapped(t, pid, a) :: Place(t, pid, size) == RunEnd(t, pid, a) > PageOf(a)
  {
    var start := Place(t, pid, size);
    PlaceIsFirstFit(t, pid, size);
    assert Packed(t[pid]);
    PackedGap(t[pid], start, PagesFor(size));
    hide PageOf, Place;
    forall a: u32 | Mapped(t, pid, a)
      ensures start == RunEnd(t, pid, a) > PageOf(a)
    {
      RunLengthIs(t[pid], PageOf(a), start - PageOf(a));
    }
  }

  /** In allocator runs a malloc that returns an address and the free of that address restore which pages are valid,
      always. */
  lemma MallocFreeInRuns(mem: Memory, ops: seq<Op>, pid: u8, size: u16)
    requires AllocatorRun(ops)
    ensures var s := Run(Initial(mem), ops);
      var m := Code.PagedMalloc(s, pid, size);
      m.1 != 0 ==> SameValidity(s.table, Code.PagedFree(m.0, pid, m.1).table)
  {
    hide Run, AllPacked, Code.PagedMalloc, Code.PagedFree;
    RunPacked(mem, ops);
    var s := Run(Initial(mem), ops);
    if Code.PagedMalloc(s, pid, size).1 != 0 {
      MallocFreeRoundTrip(s, pid, size);
      PackedPlace(s.table, pid, size);
    }
  }

  /** The same pages are valid. */
  ghost predicate SameValidity(t: PageTable, u: PageTable) {
    forall p, l | 0 <= p < MAX_PROCESSES && 0 <= l < MAX_PAGES_PER_PROC :: u[p][l].valid == t[p][l].valid
  }

  /** What a granted growing call leaves of a packed page table: the process keeps the pages before the old address. */
  lemma GrowKeepsOnlyBefore(s: State, pid: u8, oldAddr: u32, size: u16)
    requires AllPacked(s.table) && Grows(s.table, pid, oldAddr, size) && Granted(s, pid, size)
    ensures Place(s.table, pid, size) == RunEnd(s.table, pid, oldAddr) != 0
    ensures var r := Code.PagedRealloc(s, pid, oldAddr, size);
      && r.1 == Place(s.table, pid, size) * PAGE_SIZE
      && forall l | 0 <= l < MAX_PAGES_PER_PROC :: r.0.table[pid][l].valid <==> l < PageOf(oldAddr)
  {
    hide Code.PagedRealloc, AllPacked, PageOf, Place;
    PackedPlace(s.table, pid, size);
    ReallocKeepsBlockIff(s, pid, oldAddr, size);
    PlaceIsFirstFit(s.table, pid, size);
    AllPackedAt(s.table, pid);
    PackedGap(s.table[pid], Place(s.table, pid, size), PagesFor(size));
  }

  lemma AllPackedAt(t: PageTable, pid: u8)
    requires AllPacked(t) && pid < MAX_PROCESSES
    ensures Packed(t[pid])
  {
  }

  /** Growing never works in allocator runs: a granted growing call copies the old block right behind itself and its
      final free then unmaps both. The address returned is not 0 and not mapped, nor is the old one. */
  lemma GrowLosesBothBlocks(mem: Memory, ops: seq<Op>, pid: u8, oldAddr: u32, size: u16)
    requires AllocatorRun(ops)
    ensures var s := Run(Initial(mem), ops);
      var r := Code.PagedRealloc(s, pid, oldAddr, size);
      Grows(s.table, pid, oldAddr, size) && Granted(s, pid, size) ==>
        && r.1 == RunEnd(s.table, pid, oldAddr) * PAGE_SIZE != 0
        && !Mapped(r.0.table, pid, r.1) && !Mapped(r.0.table, pid, oldAddr)
        && (forall l | 0 <= l < MAX_PAGES_PER_PROC :: r.0.table[pid][l].valid <==> l < PageOf(oldAddr))
  {
    hide Run, AllPacked, Code.PagedRealloc, Place, PageOf;
    RunPacked(mem, ops);
    var s := Run(Initial(mem), ops);
    if Grows(s.table, pid, oldAddr, size) && Granted(s, pid, size) {
      GrowKeepsOnlyBefore(s, pid, oldAddr, size);
      AddressOfPage(RunEnd(s.table, pid, oldAddr));
      PackedPlace(s.table, pid, size);
    }
  }

  /** What everybody keeps then: in a run that drops lines safely, every address of every other process, and of the
      process itself every address on a page before the old one, is mapped and reads as before. */
  lemma GrowSparesTheRest(mem: Memory, ops: seq<Op>, pid: u8, oldAddr: u32, size: u16, q: u8, a: u32)
    requires AllocatorRun(ops) && AllSafe(Initial(mem), ops)
    requires q != pid || PageOf(a) < PageOf(oldAddr)
    ensures var s := Run(Initial(mem), ops);
      var r := Code.PagedRealloc(s, pid, oldAddr, size);
      Grows(s.table, pid, oldAddr, size) && Granted(s, pid, size) ==>
        && Mapped(r.0.table, q, a) == Mapped(s.table, q, a)
        && Code.CachedByte(r.0, q, a) == Code.CachedByte(s, q, a)
  {
    hide Run, AllSafe, AllocSound, AllocInv, AllPacked, Code.PagedRealloc, Place, PageOf;
    RunPacked(mem, ops);
    InitialAllocSound(mem);
    SafeRunKeepsAllocInv(Initial(mem), ops);
    var s := Run(Initial(mem), ops);
    if Grows(s.table, pid, oldAddr, size) && Granted(s, pid, size) {
      GrowReads(s, pid, oldAddr, size, q, a);
    }
  }

  lemma GrowReads(s: State, pid: u8, oldAddr: u32, size: u16, q: u8, a: u32)
    requires AllocInv(s) && AllPacked(s.table) && Grows(s.table, pid, oldAddr, size) && Granted(s, pid, size)
    requires q != pid || PageOf(a) < PageOf(oldAddr)
    ensures var r := Code.PagedRealloc(s, pid, oldAddr, size);
      Mapped(r.0.table, q, a) == Mapped(s.table, q, a) && Code.CachedByte(r.0, q, a) == Code.CachedByte(s, q, a)
  {
    hide AllocInv, AllPacked, Code.PagedRealloc, Place, PageOf, Peek, CachedByte, Code.CachedByte;
    var r := Code.PagedRealloc(s, pid, oldAddr, size);
    GrowKeepsOnlyBefore(s, pid, oldAddr, size);
    PackedPlace(s.table, pid, size);
    ReallocLeavesOthers(s, pid, oldAddr, size, q, a);
    ReallocKeepsBlockIff(s, pid, oldAddr, size);
    AllocInvSound(s);
    AllocInvSound(r.0);
    AccessRedundant(s, q, a, 0);
    AccessRedundant(r.0, q, a, 0);
  }
}
