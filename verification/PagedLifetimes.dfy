/** Freeing and reallocating paged memory: which pages survive and what they still hold. */
module PagedLifetimes {
  import opened Words
  import opened CacheSets
  import opened PageCacheModel
  import opened PageCacheInvariants
  import opened PageCacheSteps
  import opened PagedAllocator
  import opened PagedViews
  import opened Writebacks

  // ---------- pagedFree ----------

  predicate InBlock(start: nat, n: nat, page: nat) { start <= page < start + n }

  /** `pagedFree` unmaps exactly the maximal valid run from its page on, and never page 0 by address 0; with a coherent
      cache it changes no memory. */
  lemma FreeOutcome(s: State, pid: u8, addr: u32)
    ensures var r := Code.PagedFree(s, pid, addr);
      && (addr == 0 || !Mapped(s.table, pid, addr) ==> r == s)
      && (addr != 0 && Mapped(s.table, pid, addr) ==>
            && SameOutside(s.table, r.table, pid, PageOf(addr), FreedPages(s.table, pid, addr))
            && (forall l | PageOf(addr) <= l < PageOf(addr) + FreedPages(s.table, pid, addr) ::
                  s.table[pid][l].valid && !r.table[pid][l].valid)
            && (PageOf(addr) + FreedPages(s.table, pid, addr) < MAX_PAGES_PER_PROC ==>
                  !s.table[pid][PageOf(addr) + FreedPages(s.table, pid, addr)].valid))
    ensures Coherent(s.cache, s.mem) ==> Code.PagedFree(s, pid, addr).mem == s.mem
    ensures SameTables(Code.PagedFree(s, pid, addr), PagedFree(s, pid, addr))
  {
    hide Coherent;
    if addr != 0 && Mapped(s.table, pid, addr) {
      UnmapRunEffect(s, pid, PageOf(addr), FreedPages(s.table, pid, addr));
      UnmapRunTables(s, s, pid, PageOf(addr), FreedPages(s.table, pid, addr));
      if Coherent(s.cache, s.mem) { FreeRedundant(s, pid, addr); }
    }
  }

  lemma FreeKeepsAllocInv(s: State, pid: u8, addr: u32)
    requires AllocInv(s)
    ensures AllocInv(PagedFree(s, pid, addr))
    ensures FreeCount(PagedFree(s, pid, addr).frames) == FreeCount(s.frames)
  {
    FreeKeepsFrames(s, pid, addr);
    if addr != 0 && Mapped(s.table, pid, addr) {
      UnmapRunKeepsAllocInv(s, pid, PageOf(addr), FreedPages(s.table, pid, addr));
    }
  }

  /** With exact counts a free returns no frame to the pool. */
  lemma FreeKeepsFrames(s: State, pid: u8, addr: u32)
    requires Exact(s.frames, s.table)
    ensures FreeCount(PagedFree(s, pid, addr).frames) == FreeCount(s.frames)
  {
    if addr != 0 && Mapped(s.table, pid, addr) {
      UnmapRunKeepsFrames(s, pid, PageOf(addr), FreedPages(s.table, pid, addr));
    }
  }

  /** The page after the block is invalid or does not exist. */
  predicate BoundedAbove(row: PageRow, end: nat) { end >= MAX_PAGES_PER_PROC || !row[end].valid }

  lemma RunAfterGrant(row: PageRow, r: PageRow, start: nat, n: nat)
    requires n > 0 && start + n <= MAX_PAGES_PER_PROC
    requires forall l | start <= l < start + n :: r[l].valid
    requires forall l | start + n <= l < MAX_PAGES_PER_PROC :: r[l] == row[l]
    ensures RunLength(r, start) >= n
    ensures RunLength(r, start) == n <==> BoundedAbove(row, start + n)
  {
    var k := RunLength(r, start);
    assert forall l | start <= l < start + n :: r[l].valid;
  }

  lemma AddressOfPage(start: nat)
    requires start < MAX_PAGES_PER_PROC
    ensures PageOf(start * PAGE_SIZE) == start
  {
  }

  /** Allocating and freeing restores which pages are valid iff nothing was mapped right after the block;
      with exact counts the frames taken never come back. */
  lemma MallocFreeRoundTrip(s: State, pid: u8, size: u16)
    requires Code.PagedMalloc(s, pid, size).1 != 0
    ensures Granted(s, pid, size)
    ensures var m := Code.PagedMalloc(s, pid, size);
      var r := Code.PagedFree(m.0, pid, m.1);
      && (SameValid(s.table, r.table) <==> BoundedAbove(s.table[pid], Place(s.table, pid, size) + PagesFor(size)))
      && (Coherent(s.cache, s.mem) ==> r.mem == s.mem)
      && (Exact(s.frames, s.table) ==> FreeCount(r.frames) == FreeCount(s.frames) - PagesFor(size))
  {
    hide AllocInv, Exact, Coherent, PagedMalloc, PagedFree, Code.PagedMalloc, Code.PagedFree, FreeCount, PageOf;
    hide SameOutside, FreshRun;
    if !Granted(s, pid, size) { MallocRefused(s, pid, size); }
    var n, start, m := PagesFor(size), Place(s.table, pid, size), Code.PagedMalloc(s, pid, size);
    MallocGranted(s, pid, size);
    AddressOfPage(start);
    GrantedMapped(s.table, m.0.table, s.frames, pid, start, n);
    FreeOutcome(m.0, pid, m.1);
    var r := Code.PagedFree(m.0, pid, m.1);
    RoundTripPages(s.table, m.0.table, r.table, pid, start, n, FreedPages(m.0.table, pid, m.1));
    if Exact(s.frames, s.table) { FreeKeepsFrames(m.0, pid, m.1); }
  }

  /** After a grant the free covers at least the block, and no more iff nothing is mapped right behind it. */
  lemma GrantedMapped(t: PageTable, u: PageTable, frames: FrameTable, pid: u8, start: nat, n: nat)
    requires pid < MAX_PROCESSES && n > 0 && start < MAX_PAGES_PER_PROC && PageOf(start * PAGE_SIZE) == start
    requires FreshRun(frames, u[pid], start, n) && SameOutside(t, u, pid, start, n)
    ensures Mapped(u, pid, start * PAGE_SIZE)
    ensures FreedPages(u, pid, start * PAGE_SIZE) >= n
    ensures FreedPages(u, pid, start * PAGE_SIZE) == n <==> BoundedAbove(t[pid], start + n)
  {
    hide PageOf;
    RunAfterGrant(t[pid], u[pid], start, n);
  }

  lemma RoundTripPages(t: PageTable, u: PageTable, v: PageTable, pid: nat, start: nat, n: nat, k: nat)
    requires pid < MAX_PROCESSES && n <= k && start + k <= MAX_PAGES_PER_PROC
    requires Fits(t[pid], start, n) && SameOutside(t, u, pid, start, n) && SameOutside(u, v, pid, start, k)
    requires forall l | start <= l < start + k :: u[pid][l].valid && !v[pid][l].valid
    requires k == n <==> BoundedAbove(t[pid], start + n)
    ensures SameValid(t, v) <==> k == n
  {
    if k == n {
      RollbackSameValid(t, u, v, pid, start, n);
    } else {
      assert t[pid][start + n].valid && !v[pid][start + n].valid;
    }
  }

  // ---------- pagedRealloc ----------

  /** Copying maps and unmaps nothing and changes no reference. */
  lemma {:induction false} CopyKeepsMap(s: State, pid: u8, from: u32, to: u32, n: nat)
    ensures SameMap(s.table, Code.CopyBytes(s, pid, from, to, n).table)
    ensures SameFrames(s.frames, Code.CopyBytes(s, pid, from, to, n).frames)
    decreases n
  {
    hide SameMap, SameFrames, Code.ReadByte, Code.WriteByte, Code.CachedByte, At;
    SameRefl(s);
    if n > 0 {
      var t := Code.CopyBytes(s, pid, from, to, n - 1);
      var u := Code.ReadByte(t, pid, At(from, n - 1));
      CopyKeepsMap(s, pid, from, to, n - 1);
      AccessKeepsMap(t, pid, At(from, n - 1), 0);
      AccessKeepsMap(u, pid, At(to, n - 1), Code.CachedByte(t, pid, At(from, n - 1)));
      SameTrans(s, t, u);
      SameTrans(s, u, Code.CopyBytes(s, pid, from, to, n));
    }
  }

  /** Copying changes only bookkeeping, the cache and the bytes copied to. */
  lemma {:induction false} CopyKeeps(s: State, pid: u8, from: u32, to: u32, n: nat)
    requires AllocInv(s)
    ensures AllocInv(CopyBytes(s, pid, from, to, n))
    ensures SameMap(s.table, CopyBytes(s, pid, from, to, n).table)
    ensures SameFrames(s.frames, CopyBytes(s, pid, from, to, n).frames)
    decreases n
  {
    hide CopyBytes, AllocInv, SameMap, SameFrames, CopyByte, At;
    CopyNone(s, pid, from, to);
    SameRefl(s);
    if n > 0 {
      var t := CopyBytes(s, pid, from, to, n - 1);
      CopyNext(s, pid, from, to, n);
      CopyKeeps(s, pid, from, to, n - 1);
      SameTrans(s, t, CopyBytes(s, pid, from, to, n));
      CopyByteKeeps(t, pid, At(from, n - 1), At(to, n - 1));
    }
  }

  lemma SameRefl(s: State)
    ensures SameMap(s.table, s.table) && SameFrames(s.frames, s.frames)
  {
  }

  lemma SameTrans(s: State, t: State, u: State)
    ensures SameMap(s.table, t.table) && SameMap(t.table, u.table) ==> SameMap(s.table, u.table)
    ensures SameFrames(s.frames, t.frames) && SameFrames(t.frames, u.frames) ==> SameFrames(s.frames, u.frames)
  {
  }

  lemma CopyByteKeeps(s: State, pid: u8, from: u32, to: u32)
    requires AllocInv(s)
    ensures AllocInv(CopyByte(s, pid, from, to))
    ensures SameMap(s.table, CopyByte(s, pid, from, to).table)
    ensures SameFrames(s.frames, CopyByte(s, pid, from, to).frames)
  {
    ReadKeepsAllocInv(s, pid, from);
    WriteKeepsAllocInv(ReadByte(s, pid, from), pid, to, Peek(s, pid, from));
  }

  lemma ReadKeepsAllocInv(s: State, pid: u8, addr: u32)
    requires AllocInv(s)
    ensures AllocInv(ReadByte(s, pid, addr)) && SameView(s, ReadByte(s, pid, addr))
    ensures SameMap(s.table, ReadByte(s, pid, addr).table) && SameFrames(s.frames, ReadByte(s, pid, addr).frames)
  {
    ReadEffect(s, pid, addr);
    SameMapKeeps(s, ReadByte(s, pid, addr));
    SameMapSameView(s, ReadByte(s, pid, addr));
  }

  lemma WriteKeepsAllocInv(s: State, pid: u8, addr: u32, b: u8)
    requires AllocInv(s)
    ensures AllocInv(WriteByte(s, pid, addr, b))
    ensures SameMap(s.table, WriteByte(s, pid, addr, b).table)
    ensures SameFrames(s.frames, WriteByte(s, pid, addr, b).frames)
  {
    WriteEffect(s, pid, addr, b);
    SameMapKeeps(s, WriteByte(s, pid, addr, b));
  }

  /** One copied byte: the target reads as the source did, everything else as before. */
  lemma CopyByteView(s: State, pid: u8, from: u32, to: u32, q: u8, a: u32)
    requires AllocInv(s) && Mapped(s.table, pid, to)
    ensures Peek(CopyByte(s, pid, from, to), q, a)
         == if q == pid && SameAddress(a, to) then Peek(s, pid, from) else Peek(s, q, a)
  {
    ReadKeepsAllocInv(s, pid, from);
    WriteIsolation(ReadByte(s, pid, from), pid, to, Peek(s, pid, from), q, a);
  }

  /** The address is one of the first n bytes at `to`. */
  predicate Among(a: u32, to: u32, n: nat) { exists i: nat | i < n :: SameAddress(a, At(to, i)) }

  /** No source byte is a target byte. */
  predicate Apart(from: u32, to: u32, n: nat) {
    forall i: nat | i < n :: !Among(At(from, i), to, n)
  }

  lemma AmongPrefix(a: u32, to: u32, n: nat)
    requires n > 0
    ensures Among(a, to, n) <==> Among(a, to, n - 1) || SameAddress(a, At(to, n - 1))
  {
  }

  /** Bytes that are not targets keep their value. */
  lemma {:induction false} CopyLeaves(s: State, pid: u8, from: u32, to: u32, n: nat, q: u8, a: u32)
    requires AllocInv(s) && RangeMapped(s.table, pid, to, n)
    requires q == pid ==> !Among(a, to, n)
    ensures Peek(CopyBytes(s, pid, from, to, n), q, a) == Peek(s, q, a)
    decreases n
  {
    hide CopyBytes, AllocInv, At, Among, Mapped, SameAddress, CopyByte, Peek;
    if n == 0 {
      CopyNone(s, pid, from, to);
    } else {
      var t := CopyBytes(s, pid, from, to, n - 1);
      CopyNext(s, pid, from, to, n);
      AmongPrefix(a, to, n);
      CopyLeaves(s, pid, from, to, n - 1, q, a);
      CopyKeeps(s, pid, from, to, n - 1);
      SameMapMapped(s.table, t.table, pid, At(to, n - 1));
      CopyByteView(t, pid, At(from, n - 1), At(to, n - 1), q, a);
    }
  }

  lemma CopyNone(s: State, pid: u8, from: u32, to: u32)
    ensures CopyBytes(s, pid, from, to, 0) == s
  {
  }

  lemma CopyNext(s: State, pid: u8, from: u32, to: u32, n: nat)
    requires n > 0
    ensures CopyBytes(s, pid, from, to, n)
         == CopyByte(CopyBytes(s, pid, from, to, n - 1), pid, At(from, n - 1), At(to, n - 1))
  {
    hide CopyByte, At;
  }

  /** Byte i at the target reads as byte i at the source did. */
  lemma {:induction false} CopyDelivers(s: State, pid: u8, from: u32, to: u32, n: nat, i: nat)
    requires AllocInv(s) && RangeMapped(s.table, pid, to, n) && Apart(from, to, n) && i < n <= ADDRESS_SPACE
    ensures Peek(CopyBytes(s, pid, from, to, n), pid, At(to, i)) == Peek(s, pid, At(from, i))
    decreases n
  {
    hide CopyBytes, AllocInv, At, Mapped, SameAddress, CopyByte, Peek;
    var t := CopyBytes(s, pid, from, to, n - 1);
    CopyNext(s, pid, from, to, n);
    CopyKeeps(s, pid, from, to, n - 1);
    SameMapMapped(s.table, t.table, pid, At(to, n - 1));
    ApartPrefix(from, to, n);
    CopyByteView(t, pid, At(from, n - 1), At(to, n - 1), pid, At(to, i));
    if i < n - 1 {
      CopyDelivers(s, pid, from, to, n - 1, i);
      AtOffsets(to, i, n - 1);
    } else {
      SameAddressReflexive(At(to, i));
      CopyLeaves(s, pid, from, to, n - 1, pid, At(from, i));
    }
  }

  lemma ApartPrefix(from: u32, to: u32, n: nat)
    requires n > 0 && Apart(from, to, n)
    ensures Apart(from, to, n - 1) && !Among(At(from, n - 1), to, n - 1)
  {
    hide At, SameAddress;
    forall i: nat | i < n
      ensures !Among(At(from, i), to, n - 1)
    {
      assert !Among(At(from, i), to, n);
    }
  }

  lemma SameAddressReflexive(a: u32)
    ensures SameAddress(a, a)
  {
  }

  // ---------- pagedRealloc: a growing call that finds room ----------

  /** The call asks for more than the old run holds. */
  predicate Grows(t: PageTable, pid: u8, oldAddr: u32, size: u16) {
    oldAddr != 0 && size != 0 && Mapped(t, pid, oldAddr) && size > FreedPages(t, pid, oldAddr) * PAGE_SIZE
  }

  /** The first page after the old run. */
  function RunEnd(t: PageTable, pid: u8, oldAddr: u32): nat
    requires Mapped(t, pid, oldAddr)
  {
    PageOf(oldAddr) + FreedPages(t, pid, oldAddr)
  }

  lemma AtPage(addr: u32, i: nat)
    requires PageOf(addr) < MAX_PAGES_PER_PROC && i < MAX_PAGES_PER_PROC * PAGE_SIZE
    ensures PageOf(At(addr, i)) == PageOf(addr) + (addr % PAGE_SIZE + i) / PAGE_SIZE
  {
    hide At, PageOf;
    AtModulo(addr, i);
    AddressParts(addr);
    AddressParts(At(addr, i));
    var low := addr % ADDRESS_SPACE;
    QuotientIs(addr + i, ADDRESS_SPACE, addr / ADDRESS_SPACE, low + i);
    assert PageOf(At(addr, i)) * PAGE_SIZE + At(addr, i) % PAGE_SIZE == PageOf(addr) * PAGE_SIZE + addr % PAGE_SIZE + i;
  }

  lemma BlockPage(start: nat, i: nat)
    requires start < MAX_PAGES_PER_PROC && i < MAX_PAGES_PER_PROC * PAGE_SIZE
    ensures PageOf(At(start * PAGE_SIZE, i)) == start + i / PAGE_SIZE
  {
    AddressOfPage(start);
    AtPage(start * PAGE_SIZE, i);
  }

  lemma RunLengthIs(row: PageRow, start: nat, k: nat)
    requires start + k <= MAX_PAGES_PER_PROC
    requires forall l | start <= l < start + k :: row[l].valid
    requires start + k < MAX_PAGES_PER_PROC ==> !row[start + k].valid
    ensures RunLength(row, start) == k
  {
  }

  /** Valid pages and the gap chosen for a new block have no page in common. */
  lemma BlockAvoidsRun(row: PageRow, start: nat, n: nat, from: nat, k: nat, page: nat)
    requires from + k <= MAX_PAGES_PER_PROC && k > 0 && Fits(row, start, n)
    requires forall l | from <= l < from + k :: row[l].valid
    requires from <= page < from + k || (page == from + k && start != from + k)
    ensures !InBlock(start, n, page)
  {
    assert row[from].valid && row[from + k - 1].valid;
    if from <= page < from + k {
      assert row[page].valid;
    }
  }

  /** The source bytes of the copy lie outside the new block, unless the block starts right at the run's end. */
  lemma SourceApart(t: PageTable, pid: u8, oldAddr: u32, size: u16)
    requires Grows(t, pid, oldAddr, size) && Requestable(pid, size) && Place(t, pid, size) < MAX_PAGES_PER_PROC
    requires Place(t, pid, size) != RunEnd(t, pid, oldAddr)
    ensures forall i: nat | i < FreedPages(t, pid, oldAddr) * PAGE_SIZE ::
      !InBlock(Place(t, pid, size), PagesFor(size), PageOf(At(oldAddr, i)))
    ensures Apart(oldAddr, Place(t, pid, size) * PAGE_SIZE, FreedPages(t, pid, oldAddr) * PAGE_SIZE)
  {
    var n, start, k := PagesFor(size), Place(t, pid, size), FreedPages(t, pid, oldAddr);
    var len := k * PAGE_SIZE;
    forall i: nat | i < len
      ensures !InBlock(start, n, PageOf(At(oldAddr, i)))
    {
      AtPage(oldAddr, i);
      BlockAvoidsRun(t[pid], start, n, PageOf(oldAddr), k, PageOf(At(oldAddr, i)));
    }
    hide At, PageOf, Among, Mapped;
    forall i: nat | i < len
      ensures !Among(At(oldAddr, i), start * PAGE_SIZE, len)
    {
      AmongBlock(At(oldAddr, i), start, n, len);
    }
  }

  /** A byte among the first len of a block lies on one of the block's pages. */
  lemma AmongBlock(a: u32, start: nat, n: nat, len: nat)
    requires start + n <= MAX_PAGES_PER_PROC && len <= n * PAGE_SIZE && start < MAX_PAGES_PER_PROC
    ensures Among(a, start * PAGE_SIZE, len) ==> InBlock(start, n, PageOf(a))
  {
    if Among(a, start * PAGE_SIZE, len) {
      var i: nat :| i < len && SameAddress(a, At(start * PAGE_SIZE, i));
      BlockPage(start, i);
      SameAddressMeans(a, At(start * PAGE_SIZE, i));
    }
  }

  lemma BlockMapped(t: PageTable, pid: u8, start: nat, n: nat, len: nat)
    requires pid < MAX_PROCESSES && start + n <= MAX_PAGES_PER_PROC && len <= n * PAGE_SIZE
    requires start < MAX_PAGES_PER_PROC && forall l | start <= l < start + n :: t[pid][l].valid
    ensures RangeMapped(t, pid, start * PAGE_SIZE, len)
  {
    forall i: nat | i < len
      ensures Mapped(t, pid, At(start * PAGE_SIZE, i))
    {
      BlockPage(start, i);
    }
  }

  /** The state after the copy, before the old run is freed. */
  function Copied(s: State, pid: u8, oldAddr: u32, size: u16): State
    requires Mapped(s.table, pid, oldAddr)
  {
    var m := Code.PagedMalloc(s, pid, size);
    Code.CopyBytes(m.0, pid, oldAddr, m.1, FreedPages(s.table, pid, oldAddr) * PAGE_SIZE)
  }

  /** A growing call that is granted elsewhere than page 0: allocate, copy, free. */
  lemma GrowUnfold(s: State, pid: u8, oldAddr: u32, size: u16)
    requires Grows(s.table, pid, oldAddr, size) && Granted(s, pid, size) && Place(s.table, pid, size) != 0
    ensures var r := Code.PagedRealloc(s, pid, oldAddr, size);
      && r.1 == Place(s.table, pid, size) * PAGE_SIZE
      && r.0 == Code.PagedFree(Copied(s, pid, oldAddr, size), pid, oldAddr)
  {
    hide Code.PagedMalloc, Code.PagedFree, Code.CopyBytes;
    MallocGranted(s, pid, size);
  }

  /** After the copy: the new block is mapped; no other page has changed. */
  lemma CopiedState(s: State, pid: u8, oldAddr: u32, size: u16) returns (c: State)
    requires Grows(s.table, pid, oldAddr, size) && Granted(s, pid, size)
    ensures c == Copied(s, pid, oldAddr, size) && (AllocInv(s) ==> AllocInv(c))
    ensures SameOutsideMap(s.table, c.table, pid, Place(s.table, pid, size), PagesFor(size))
    ensures var start := Place(s.table, pid, size);
      forall l | start <= l < start + PagesFor(size) :: c.table[pid][l].valid
  {
    hide AllocInv, Code.PagedMalloc, Code.CopyBytes, PagedMalloc, CopyBytes;
    var m, len := Code.PagedMalloc(s, pid, size), FreedPages(s.table, pid, oldAddr) * PAGE_SIZE;
    MallocGranted(s, pid, size);
    CopyKeepsMap(m.0, pid, oldAddr, m.1, len);
    c := Code.CopyBytes(m.0, pid, oldAddr, m.1, len);
    if AllocInv(s) {
      CopyKeeps(m.0, pid, oldAddr, m.1, len);
      CopiedRedundant(m.0, pid, oldAddr, m.1, len);
    }
  }

  lemma CopiedRedundant(s: State, pid: u8, from: u32, to: u32, n: nat)
    requires AllocInv(s)
    ensures Code.CopyBytes(s, pid, from, to, n) == CopyBytes(s, pid, from, to, n)
  {
    CopyRedundant(s, pid, from, to, n);
  }

  /** Outside pages [start, start + n) of the process the same pages map the same frames. */
  ghost predicate SameOutsideMap(t: PageTable, u: PageTable, pid: nat, start: nat, n: nat) {
    forall p, l | 0 <= p < MAX_PROCESSES && 0 <= l < MAX_PAGES_PER_PROC && (p != pid || l < start || l >= start + n) ::
      u[p][l].valid == t[p][l].valid && u[p][l].physicalPage == t[p][l].physicalPage
  }

  lemma CopiedContents(s: State, pid: u8, oldAddr: u32, size: u16, i: nat)
    requires AllocInv(s) && Grows(s.table, pid, oldAddr, size) && Granted(s, pid, size)
    requires Place(s.table, pid, size) != RunEnd(s.table, pid, oldAddr)
    requires i < FreedPages(s.table, pid, oldAddr) * PAGE_SIZE
    ensures Peek(Copied(s, pid, oldAddr, size), pid, At(Place(s.table, pid, size) * PAGE_SIZE, i))
         == Peek(s, pid, At(oldAddr, i))
  {
    var n, start, m := PagesFor(size), Place(s.table, pid, size), Code.PagedMalloc(s, pid, size);
    var len := FreedPages(s.table, pid, oldAddr) * PAGE_SIZE;
    MallocGranted(s, pid, size);
    CopiedRedundant(m.0, pid, oldAddr, m.1, len);
    SourceApart(s.table, pid, oldAddr, size);
    BlockMapped(m.0.table, pid, start, n, len);
    CopyDelivers(m.0, pid, oldAddr, m.1, len, i);
    OutsideViewSame(s, m.0, pid, start, n, pid, At(oldAddr, i));
  }

  lemma OutsideViewSame(s: State, r: State, pid: u8, start: nat, n: nat, q: u8, a: u32)
    requires SameOutside(s.table, r.table, pid, start, n) && r.mem == s.mem
    requires q != pid || !InBlock(start, n, PageOf(a))
    ensures Mapped(r.table, q, a) == Mapped(s.table, q, a) && Peek(r, q, a) == Peek(s, q, a)
  {
    hide PageOf;
  }

  lemma CopiedOthers(s: State, pid: u8, oldAddr: u32, size: u16, q: u8, a: u32)
    requires AllocInv(s) && Grows(s.table, pid, oldAddr, size) && Granted(s, pid, size)
    requires q != pid || !InBlock(Place(s.table, pid, size), PagesFor(size), PageOf(a))
    ensures Peek(Copied(s, pid, oldAddr, size), q, a) == Peek(s, q, a)
  {
    var n, start, m := PagesFor(size), Place(s.table, pid, size), Code.PagedMalloc(s, pid, size);
    var len := FreedPages(s.table, pid, oldAddr) * PAGE_SIZE;
    MallocGranted(s, pid, size);
    CopiedRedundant(m.0, pid, oldAddr, m.1, len);
    BlockMapped(m.0.table, pid, start, n, len);
    AmongBlock(a, start, n, len);
    CopyLeaves(m.0, pid, oldAddr, m.1, len, q, a);
    OutsideViewSame(s, m.0, pid, start, n, q, a);
  }

  /** The old run as the final free sees it: unchanged, unless the new block was put right behind it. */
  lemma CopiedRun(s: State, pid: u8, oldAddr: u32, size: u16)
    requires Grows(s.table, pid, oldAddr, size) && Granted(s, pid, size)
    ensures var c := Copied(s, pid, oldAddr, size);
      var k, end := FreedPages(s.table, pid, oldAddr), RunEnd(s.table, pid, oldAddr);
      && Mapped(c.table, pid, oldAddr)
      && (Place(s.table, pid, size) != end ==> FreedPages(c.table, pid, oldAddr) == k)
      && (Place(s.table, pid, size) == end ==>
            FreedPages(c.table, pid, oldAddr)
              == k + PagesFor(size) + RunLength(s.table[pid], end + PagesFor(size)))
  {
    var start, k := Place(s.table, pid, size), FreedPages(s.table, pid, oldAddr);
    var c := CopiedState(s, pid, oldAddr, size);
    RunSeen(s.table[pid], c.table[pid], start, PagesFor(size), PageOf(oldAddr), k);
  }

  lemma RunSeen(row: PageRow, r: PageRow, start: nat, n: nat, from: nat, k: nat)
    requires k > 0 && from + k <= MAX_PAGES_PER_PROC && n > 0 && Fits(row, start, n) && RunLength(row, from) == k
    requires forall l | start <= l < start + n :: r[l].valid
    requires forall l | 0 <= l < MAX_PAGES_PER_PROC && (l < start || l >= start + n) :: r[l].valid == row[l].valid
    ensures r[from].valid
    ensures start != from + k ==> RunLength(r, from) == k
    ensures start == from + k ==> RunLength(r, from) == k + n + RunLength(row, from + k + n)
  {
    forall l | from <= l < from + k
      ensures r[l].valid
    {
      BlockAvoidsRun(row, start, n, from, k, l);
    }
    if start != from + k {
      if from + k < MAX_PAGES_PER_PROC {
        BlockAvoidsRun(row, start, n, from, k, from + k);
      }
      RunLengthIs(r, from, k);
    } else {
      RunLengthIs(r, from, k + n + RunLength(row, from + k + n));
    }
  }

  /** The pages that the final free of a granted growing call unmaps, from the old address on: the old run, and when
      the new block was put right behind it, that block and every page mapped right behind the block. */
  function LostPages(t: PageTable, pid: u8, oldAddr: u32, size: u16): nat
    requires Mapped(t, pid, oldAddr) && Requestable(pid, size)
    requires Place(t, pid, size) == RunEnd(t, pid, oldAddr) ==>
      Place(t, pid, size) + PagesFor(size) <= MAX_PAGES_PER_PROC
  {
    var k := FreedPages(t, pid, oldAddr);
    if Place(t, pid, size) != RunEnd(t, pid, oldAddr) then k
    else k + PagesFor(size) + RunLength(t[pid], Place(t, pid, size) + PagesFor(size))
  }

  /** Which pages a granted growing call leaves valid: it keeps its new block iff the block was not placed right at
      the end of the old run; otherwise the final free takes the whole block, and what is mapped behind it, along. */
  lemma ReallocKeepsBlockIff(s: State, pid: u8, oldAddr: u32, size: u16)
    requires Grows(s.table, pid, oldAddr, size)
    requires Granted(s, pid, size) && Place(s.table, pid, size) != 0
    ensures var r, start, n := Code.PagedRealloc(s, pid, oldAddr, size), Place(s.table, pid, size), PagesFor(size);
      && r.1 == start * PAGE_SIZE && (AllocInv(s) ==> AllocInv(r.0))
      && (forall l | 0 <= l < MAX_PAGES_PER_PROC ::
            r.0.table[pid][l].valid <==>
              (s.table[pid][l].valid || InBlock(start, n, l))
              && !InBlock(PageOf(oldAddr), LostPages(s.table, pid, oldAddr, size), l))
      && (start != RunEnd(s.table, pid, oldAddr) <==> exists l | start <= l < start + n :: r.0.table[pid][l].valid)
      && (start != RunEnd(s.table, pid, oldAddr) ==> forall l | start <= l < start + n :: r.0.table[pid][l].valid)
  {
    assert Requestable(pid, size) && Place(s.table, pid, size) < MAX_PAGES_PER_PROC;
    var r, start, n := Code.PagedRealloc(s, pid, oldAddr, size), Place(s.table, pid, size), PagesFor(size);
    var from, lost := PageOf(oldAddr), LostPages(s.table, pid, oldAddr, size);
    BlockBesideRun(s.table, pid, oldAddr, size);
    hide AllocInv, Copied, Granted, Code.PagedFree, Code.PagedRealloc, PageOf, Place, Requestable, FreedPages;
    hide PagesFor, LostPages;
    var c := FinalFree(s, pid, oldAddr, size);
    PagesAfterFree(s.table, c.table, r.0.table, pid, start, n, from, lost);
    if start != RunEnd(s.table, pid, oldAddr) {
      assert r.0.table[pid][start].valid;
    }
  }

  /** The last step of a granted growing call, from the state c after the copy. */
  lemma FinalFree(s: State, pid: u8, oldAddr: u32, size: u16) returns (c: State)
    requires Grows(s.table, pid, oldAddr, size)
    requires Granted(s, pid, size) && Place(s.table, pid, size) != 0
    ensures var r, lost := Code.PagedRealloc(s, pid, oldAddr, size), LostPages(s.table, pid, oldAddr, size);
      var start, n := Place(s.table, pid, size), PagesFor(size);
      && r.1 == start * PAGE_SIZE && (AllocInv(s) ==> AllocInv(r.0)) && start + n <= MAX_PAGES_PER_PROC
      && PageOf(oldAddr) + lost <= MAX_PAGES_PER_PROC
      && SameOutsideMap(s.table, c.table, pid, start, n)
      && (forall l | start <= l < start + n :: c.table[pid][l].valid)
      && SameOutside(c.table, r.0.table, pid, PageOf(oldAddr), lost)
      && (forall l | PageOf(oldAddr) <= l < PageOf(oldAddr) + lost :: !r.0.table[pid][l].valid)
  {
    assert Requestable(pid, size) && Place(s.table, pid, size) < MAX_PAGES_PER_PROC;
    hide AllocInv, Copied, Granted, Code.PagedFree, Code.PagedRealloc, PageOf, Place, Requestable, FreedPages, PagesFor;
    GrowUnfold(s, pid, oldAddr, size);
    CopiedRun(s, pid, oldAddr, size);
    c := CopiedState(s, pid, oldAddr, size);
    FreeOutcome(c, pid, oldAddr);
    if AllocInv(s) {
      FreeCoherent(c, pid, oldAddr);
    }
  }

  lemma FreeCoherent(s: State, pid: u8, addr: u32)
    requires AllocInv(s)
    ensures AllocInv(Code.PagedFree(s, pid, addr)) && Code.PagedFree(s, pid, addr).mem == s.mem
  {
    FreeRedundant(s, pid, addr);
    FreeKeepsAllocInv(s, pid, addr);
    FreeOutcome(s, pid, addr);
    hide PagedFree, Code.PagedFree;
  }

  lemma PagesAfterFree(t: PageTable, u: PageTable, v: PageTable, pid: u8, start: nat, n: nat, from: nat, lost: nat)
    requires pid < MAX_PROCESSES && start + n <= MAX_PAGES_PER_PROC && from + lost <= MAX_PAGES_PER_PROC
    requires SameOutsideMap(t, u, pid, start, n) && SameOutside(u, v, pid, from, lost)
    requires forall l | start <= l < start + n :: u[pid][l].valid
    requires forall l | from <= l < from + lost :: !v[pid][l].valid
    ensures forall l | 0 <= l < MAX_PAGES_PER_PROC ::
      v[pid][l].valid <==> (t[pid][l].valid || InBlock(start, n, l)) && !InBlock(from, lost, l)
  {
  }

  /** The gap chosen lies wholly before or wholly after the old run. */
  lemma BlockBesideRun(t: PageTable, pid: u8, oldAddr: u32, size: u16)
    requires Grows(t, pid, oldAddr, size) && Requestable(pid, size) && Place(t, pid, size) < MAX_PAGES_PER_PROC
    ensures Place(t, pid, size) + PagesFor(size) <= PageOf(oldAddr) || Place(t, pid, size) >= RunEnd(t, pid, oldAddr)
  {
    var start, n := Place(t, pid, size), PagesFor(size);
    var page := if start < PageOf(oldAddr) then PageOf(oldAddr) else start;
    hide PageOf, Place;
    if InBlock(start, n, page) {
      BlockAvoids(t, pid, oldAddr, size, page);
    }
  }

  /** A granted growing call that keeps its block delivers the old contents at the new address. */
  lemma ReallocDelivers(s: State, pid: u8, oldAddr: u32, size: u16, i: nat)
    requires AllocInv(s) && Grows(s.table, pid, oldAddr, size)
    requires Granted(s, pid, size) && Place(s.table, pid, size) != 0
    requires Place(s.table, pid, size) != RunEnd(s.table, pid, oldAddr)
    requires i < FreedPages(s.table, pid, oldAddr) * PAGE_SIZE
    ensures var r := Code.PagedRealloc(s, pid, oldAddr, size);
      Mapped(r.0.table, pid, At(r.1, i)) && Peek(r.0, pid, At(r.1, i)) == Peek(s, pid, At(oldAddr, i))
  {
    var start, r := Place(s.table, pid, size), Code.PagedRealloc(s, pid, oldAddr, size);
    GrowUnfold(s, pid, oldAddr, size);
    CopiedRun(s, pid, oldAddr, size);
    CopiedContents(s, pid, oldAddr, size, i);
    ReallocKeepsBlockIff(s, pid, oldAddr, size);
    var c := CopiedState(s, pid, oldAddr, size);
    FreeOutcome(c, pid, oldAddr);
    FreeCoherent(c, pid, oldAddr);
    BlockPage(start, i);
    BlockAvoids(s.table, pid, oldAddr, size, start + i / PAGE_SIZE);
    OutsideViewSame(c, r.0, pid, PageOf(oldAddr), FreedPages(c.table, pid, oldAddr), pid, At(r.1, i));
  }

  lemma BlockAvoids(t: PageTable, pid: u8, oldAddr: u32, size: u16, page: nat)
    requires Grows(t, pid, oldAddr, size) && Requestable(pid, size) && Place(t, pid, size) < MAX_PAGES_PER_PROC
    requires InBlock(Place(t, pid, size), PagesFor(size), page)
    ensures !InBlock(PageOf(oldAddr), FreedPages(t, pid, oldAddr), page)
  {
    if InBlock(PageOf(oldAddr), FreedPages(t, pid, oldAddr), page) {
      BlockAvoidsRun(t[pid], Place(t, pid, size), PagesFor(size), PageOf(oldAddr), FreedPages(t, pid, oldAddr), page);
    }
  }

  /** Every address that is on no lost page and not in the new block is mapped and reads as before; in particular
      every address of every other process. */
  lemma ReallocLeavesOthers(s: State, pid: u8, oldAddr: u32, size: u16, q: u8, a: u32)
    requires AllocInv(s) && Grows(s.table, pid, oldAddr, size)
    requires Granted(s, pid, size) && Place(s.table, pid, size) != 0
    requires q != pid || !InBlock(Place(s.table, pid, size), PagesFor(size), PageOf(a))
    requires q != pid || !InBlock(PageOf(oldAddr), LostPages(s.table, pid, oldAddr, size), PageOf(a))
    ensures var r := Code.PagedRealloc(s, pid, oldAddr, size);
      Mapped(r.0.table, q, a) == Mapped(s.table, q, a) && Peek(r.0, q, a) == Peek(s, q, a)
  {
    var r := Code.PagedRealloc(s, pid, oldAddr, size);
    GrowUnfold(s, pid, oldAddr, size);
    CopiedRun(s, pid, oldAddr, size);
    CopiedOthers(s, pid, oldAddr, size, q, a);
    var c := CopiedState(s, pid, oldAddr, size);
    FreeOutcome(c, pid, oldAddr);
    FreeCoherent(c, pid, oldAddr);
    OutsideViewSame(c, r.0, pid, PageOf(oldAddr), FreedPages(c.table, pid, oldAddr), q, a);
    OutsideMapped(s.table, c.table, pid, Place(s.table, pid, size), PagesFor(size), q, a);
  }

  /** The page belongs neither to the old run nor to the new block. */
  predicate Bystander(t: PageTable, pid: u8, oldAddr: u32, size: u16, page: nat)
    requires Mapped(t, pid, oldAddr) && Requestable(pid, size)
  {
    && !InBlock(PageOf(oldAddr), FreedPages(t, pid, oldAddr), page)
    && !InBlock(Place(t, pid, size), PagesFor(size), page)
  }

  /** The process keeps everything outside the old run and the new block iff the block was not put right behind the
      run, or nothing is mapped right behind the block. */
  lemma ReallocSparesBystandersIff(s: State, pid: u8, oldAddr: u32, size: u16)
    requires AllocInv(s) && Grows(s.table, pid, oldAddr, size)
    requires Granted(s, pid, size) && Place(s.table, pid, size) != 0
    ensures var r, end := Code.PagedRealloc(s, pid, oldAddr, size), Place(s.table, pid, size) + PagesFor(size);
      (forall a: u32 | Bystander(s.table, pid, oldAddr, size, PageOf(a)) ::
         Mapped(r.0.table, pid, a) == Mapped(s.table, pid, a) && Peek(r.0, pid, a) == Peek(s, pid, a))
      <==> Place(s.table, pid, size) != RunEnd(s.table, pid, oldAddr) || BoundedAbove(s.table[pid], end)
  {
    var r, end := Code.PagedRealloc(s, pid, oldAddr, size), Place(s.table, pid, size) + PagesFor(size);
    if Place(s.table, pid, size) != RunEnd(s.table, pid, oldAddr) || BoundedAbove(s.table[pid], end) {
      hide Code.PagedRealloc, AllocInv, PageOf, Peek, Mapped;
      forall a: u32 | Bystander(s.table, pid, oldAddr, size, PageOf(a))
        ensures Mapped(r.0.table, pid, a) == Mapped(s.table, pid, a) && Peek(r.0, pid, a) == Peek(s, pid, a)
      {
        ReallocLeavesOthers(s, pid, oldAddr, size, pid, a);
      }
    } else {
      NeighbourLost(s, pid, oldAddr, size);
    }
  }

  /** Put right behind the old run with a page mapped behind it, the new block takes that page along when it goes. */
  lemma NeighbourLost(s: State, pid: u8, oldAddr: u32, size: u16)
    requires AllocInv(s) && Grows(s.table, pid, oldAddr, size)
    requires Granted(s, pid, size) && Place(s.table, pid, size) != 0
    requires Place(s.table, pid, size) == RunEnd(s.table, pid, oldAddr)
    requires !BoundedAbove(s.table[pid], Place(s.table, pid, size) + PagesFor(size))
    ensures var a: u32 := (Place(s.table, pid, size) + PagesFor(size)) * PAGE_SIZE;
      && Bystander(s.table, pid, oldAddr, size, PageOf(a)) && Mapped(s.table, pid, a)
      && !Mapped(Code.PagedRealloc(s, pid, oldAddr, size).0.table, pid, a)
  {
    hide Code.PagedRealloc, AllocInv, PageOf, Place, RunLength, LostPages, PagesFor;
    AddressOfPage(Place(s.table, pid, size) + PagesFor(size));
    NeighbourInLost(s.table, pid, oldAddr, size);
    ReallocKeepsBlockIff(s, pid, oldAddr, size);
    hide InBlock;
  }

  lemma NeighbourInLost(t: PageTable, pid: u8, oldAddr: u32, size: u16)
    requires Mapped(t, pid, oldAddr) && Requestable(pid, size) && Place(t, pid, size) < MAX_PAGES_PER_PROC
    requires Place(t, pid, size) == RunEnd(t, pid, oldAddr)
    requires !BoundedAbove(t[pid], Place(t, pid, size) + PagesFor(size))
    ensures var end := Place(t, pid, size) + PagesFor(size);
      && end < MAX_PAGES_PER_PROC && t[pid][end].valid && Bystander(t, pid, oldAddr, size, end)
      && InBlock(PageOf(oldAddr), LostPages(t, pid, oldAddr, size), end)
  {
    hide PageOf, PagesFor, Place;
    assert RunLength(t[pid], Place(t, pid, size) + PagesFor(size)) > 0;
    hide RunLength;
  }

  lemma OutsideMapped(t: PageTable, u: PageTable, pid: u8, start: nat, n: nat, q: u8, a: u32)
    requires SameOutsideMap(t, u, pid, start, n)
    requires q != pid || !InBlock(start, n, PageOf(a))
    ensures Mapped(u, q, a) == Mapped(t, q, a)
  {
    hide PageOf;
  }

  /** The calls that do not grow a block, in any state: one the old run has room for changes nothing and returns the old
      address, one on an unmapped address changes nothing and returns 0, one to size 0 frees, one from address 0
      allocates. */
  lemma ReallocWithoutGrowing(s: State, pid: u8, oldAddr: u32, size: u16)
    requires !Grows(s.table, pid, oldAddr, size)
    ensures var r := Code.PagedRealloc(s, pid, oldAddr, size);
      && (oldAddr != 0 && size != 0 ==> r.0 == s)
      && (oldAddr != 0 && size != 0 ==> r.1 == if Mapped(s.table, pid, oldAddr) then oldAddr else 0)
    ensures oldAddr != 0 && size == 0 ==>
      var r := Code.PagedRealloc(s, pid, oldAddr, size);
      && r.1 == 0
      && (!Mapped(s.table, pid, oldAddr) ==> r.0 == s)
      && (Mapped(s.table, pid, oldAddr) ==>
            && SameOutside(s.table, r.0.table, pid, PageOf(oldAddr), FreedPages(s.table, pid, oldAddr))
            && (forall l | PageOf(oldAddr) <= l < RunEnd(s.table, pid, oldAddr) :: !r.0.table[pid][l].valid))
    ensures oldAddr == 0 ==>
      var r := Code.PagedRealloc(s, pid, oldAddr, size);
      && (Granted(s, pid, size) ==>
            && r.1 == Place(s.table, pid, size) * PAGE_SIZE
            && FreshRun(s.frames, r.0.table[pid], Place(s.table, pid, size), PagesFor(size))
            && SameOutside(s.table, r.0.table, pid, Place(s.table, pid, size), PagesFor(size)))
      && (!Granted(s, pid, size) ==> r.1 == 0 && SameValid(s.table, r.0.table))
  {
    hide Code.PagedMalloc, Code.PagedFree, PageOf, FreshRun, SameValid, SameOutside, Place, AllocInv, Exact;
    FreeOutcome(s, pid, oldAddr);
    if Granted(s, pid, size) { MallocGranted(s, pid, size); } else { MallocRefused(s, pid, size); }
  }

  /** A growing call copies no more than the old run: beyond, the new block holds what its frames held. */
  lemma ReallocLeavesTail(s: State, pid: u8, oldAddr: u32, size: u16, i: nat)
    requires AllocInv(s) && Grows(s.table, pid, oldAddr, size)
    requires Granted(s, pid, size) && Place(s.table, pid, size) != 0
    requires Place(s.table, pid, size) != RunEnd(s.table, pid, oldAddr)
    requires FreedPages(s.table, pid, oldAddr) * PAGE_SIZE <= i < PagesFor(size) * PAGE_SIZE
    ensures var m, r := Code.PagedMalloc(s, pid, size), Code.PagedRealloc(s, pid, oldAddr, size);
      Mapped(r.0.table, pid, At(r.1, i)) && Peek(r.0, pid, At(r.1, i)) == Peek(m.0, pid, At(m.1, i))
  {
    var start, n, m := Place(s.table, pid, size), PagesFor(size), Code.PagedMalloc(s, pid, size);
    var len, r := FreedPages(s.table, pid, oldAddr) * PAGE_SIZE, Code.PagedRealloc(s, pid, oldAddr, size);
    GrowUnfold(s, pid, oldAddr, size);
    MallocGranted(s, pid, size);
    CopiedRun(s, pid, oldAddr, size);
    var c := CopiedState(s, pid, oldAddr, size);
    CopiedRedundant(m.0, pid, oldAddr, m.1, len);
    TailNotCopied(m.1, len, i);
    BlockMapped(m.0.table, pid, start, n, len);
    CopyLeaves(m.0, pid, oldAddr, m.1, len, pid, At(m.1, i));
    ReallocKeepsBlockIff(s, pid, oldAddr, size);
    FreeOutcome(c, pid, oldAddr);
    FreeCoherent(c, pid, oldAddr);
    BlockPage(start, i);
    BlockAvoids(s.table, pid, oldAddr, size, start + i / PAGE_SIZE);
    OutsideViewSame(c, r.0, pid, PageOf(oldAddr), FreedPages(c.table, pid, oldAddr), pid, At(r.1, i));
  }

  lemma TailNotCopied(to: u32, len: nat, i: nat)
    requires len <= i < ADDRESS_SPACE
    ensures !Among(At(to, i), to, len)
  {
    hide At, SameAddress;
    forall j: nat | j < len
      ensures !SameAddress(At(to, i), At(to, j))
    {
      AtOffsets(to, j, i);
      SameAddressSym(At(to, i), At(to, j));
    }
  }

  lemma SameAddressSym(a: u32, b: u32)
    ensures SameAddress(a, b) <==> SameAddress(b, a)
  {
  }

  /** A growing call that returns 0 costs nobody a byte: all that was mapped still is, and reads as before. */
  lemma ReallocFailureKeeps(s: State, pid: u8, oldAddr: u32, size: u16, q: u8, a: u32)
    requires Grows(s.table, pid, oldAddr, size)
    requires Code.PagedRealloc(s, pid, oldAddr, size).1 == 0 && Mapped(s.table, q, a)
    ensures var r := Code.PagedRealloc(s, pid, oldAddr, size).0;
      Mapped(r.table, q, a) && Peek(r, q, a) == Peek(s, q, a) && r.cache == s.cache
  {
    hide Code.PagedMalloc, PagedMalloc, PageOf, Peek;
    if Granted(s, pid, size) {
      MallocGranted(s, pid, size);
      FitsAvoidsMapped(s.table, Place(s.table, pid, size), PagesFor(size), pid, q, a);
      OutsideViewSame(s, Code.PagedMalloc(s, pid, size).0, pid, Place(s.table, pid, size), PagesFor(size), q, a);
    } else {
      MallocRefused(s, pid, size);
      SameValidView(s, Code.PagedMalloc(s, pid, size).0, q, a);
    }
  }

  lemma SameValidView(s: State, r: State, q: u8, a: u32)
    requires SameValid(s.table, r.table) && r.mem == s.mem && Mapped(s.table, q, a)
    ensures Mapped(r.table, q, a) && Peek(r, q, a) == Peek(s, q, a)
  {
    hide PageOf;
  }

  lemma FitsAvoidsMapped(t: PageTable, start: nat, n: nat, pid: u8, q: u8, a: u32)
    requires pid < MAX_PROCESSES && Fits(t[pid], start, n) && Mapped(t, q, a)
    ensures q != pid || !InBlock(start, n, PageOf(a))
  {
    hide PageOf;
  }
}
