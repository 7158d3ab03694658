/** What every public call keeps, and the stronger facts every allocator call keeps. */
module PageCacheInvariants {
  import opened Words
  import opened Sram
  import opened CacheSets
  import opened PageCacheModel

  // ---------- Counting mappings ----------

  function Hit(e: Pte, f: FrameIndex): nat { if e.valid && e.physicalPage == f then 1 else 0 }

  function RowMappings(row: seq<Pte>, f: FrameIndex): (m: nat)
    ensures m <= |row|
    ensures m == 0 <==> forall l | 0 <= l < |row| :: Hit(row[l], f) == 0
  {
    if row == [] then 0 else RowMappings(row[..|row| - 1], f) + Hit(row[|row| - 1], f)
  }

  /** The number of valid page-table entries that map frame f. */
  function Mappings(t: seq<PageRow>, f: FrameIndex): (m: nat)
    ensures m <= |t| * MAX_PAGES_PER_PROC
    ensures m == 0 <==> forall q, l | 0 <= q < |t| && 0 <= l < MAX_PAGES_PER_PROC :: Hit(t[q][l], f) == 0
  {
    if t == [] then 0 else Mappings(t[..|t| - 1], f) + RowMappings(t[|t| - 1], f)
  }

  lemma {:induction false} RowMappingsUpdate(row: seq<Pte>, f: FrameIndex, l: nat, e: Pte)
    requires l < |row|
    ensures RowMappings(row[l := e], f) == RowMappings(row, f) + Hit(e, f) - Hit(row[l], f)
  {
    var k := |row| - 1;
    if l < k {
      assert row[l := e][..k] == row[..k][l := e];
      RowMappingsUpdate(row[..k], f, l, e);
    } else {
      assert row[l := e][..k] == row[..k];
    }
  }

  lemma {:induction false} MappingsUpdate(t: seq<PageRow>, f: FrameIndex, pid: nat, lp: nat, e: Pte)
    requires pid < |t| && lp < MAX_PAGES_PER_PROC
    ensures Mappings(t[pid := t[pid][lp := e]], f) == Mappings(t, f) + Hit(e, f) - Hit(t[pid][lp], f)
  {
    var k := |t| - 1;
    hide RowMappings;
    var u := t[pid := t[pid][lp := e]];
    assert Mappings(u, f) == Mappings(u[..k], f) + RowMappings(u[k], f);
    if pid < k {
      assert u[..k] == t[..k][pid := t[pid][lp := e]];
      MappingsUpdate(t[..k], f, pid, lp, e);
    } else {
      assert u[..k] == t[..k];
      RowMappingsUpdate(t[pid], f, lp, e);
    }
  }

  // ---------- Invariants ----------

  /** A frame is free iff nobody refers to it, and has at most one reference beyond its m mappings. */
  predicate FrameCounted(fr: Frame, m: nat) {
    (fr.status == PageFree <==> fr.refCount == 0) && fr.refCount <= m + 1
  }

  ghost predicate Counted(frames: FrameTable, t: PageTable) {
    forall f: FrameIndex :: FrameCounted(frames[f], Mappings(t, f))
  }

  /** Kept by every public call but an `invalidateLine` whose spill a cached line would miss. */
  ghost predicate Inv(s: State) {
    Coherent(s.cache, s.mem) && Counted(s.frames, s.table)
  }

  /** A frame is free with no mapping, or has exactly one reference beyond its m mappings. */
  predicate FrameExact(fr: Frame, m: nat) {
    if fr.status == PageFree then fr.refCount == 0 && m == 0 else fr.refCount == m + 1
  }

  ghost predicate Exact(frames: FrameTable, t: PageTable) {
    forall f: FrameIndex :: FrameExact(frames[f], Mappings(t, f))
  }

  ghost predicate Owned(frames: FrameTable, t: PageTable) {
    forall p, l | 0 <= p < MAX_PROCESSES && 0 <= l < MAX_PAGES_PER_PROC && t[p][l].valid ::
      frames[t[p][l].physicalPage].owner == p && frames[t[p][l].physicalPage].status == PageMapped
  }

  /** No two valid entries map the same frame. */
  ghost predicate Injective(t: PageTable) {
    forall p, l, q, k | 0 <= p < MAX_PROCESSES && 0 <= l < MAX_PAGES_PER_PROC && t[p][l].valid
                     && 0 <= q < MAX_PROCESSES && 0 <= k < MAX_PAGES_PER_PROC && t[q][k].valid ::
      t[p][l].physicalPage == t[q][k].physicalPage ==> p == q && l == k
  }

  ghost predicate HasDirty(c: CacheSet, tag: u32) {
    exists w | 0 <= w < CACHE_NUM_WAYS :: Holds(c[w], tag) && c[w].dirty
  }

  ghost predicate LineDirty(c: Cache, tag: u32) {
    HasDirty(c[tag % CACHE_NUM_SETS], tag)
  }

  ghost predicate DirtyPage(t: PageTable, f: nat) {
    exists p, l | 0 <= p < MAX_PROCESSES && 0 <= l < MAX_PAGES_PER_PROC ::
      t[p][l].valid && t[p][l].dirty && t[p][l].physicalPage == f
  }

  /** Every dirty cache line lies in a frame mapped by a valid entry whose dirty bit is set. */
  ghost predicate DirtyTracked(c: Cache, t: PageTable) {
    forall tag: u32 :: LineDirty(c, tag) ==> DirtyPage(t, tag / LINES_PER_PAGE)
  }

  /** Likewise kept by every allocator call. */
  ghost predicate AllocInv(s: State) {
    && Coherent(s.cache, s.mem)
    && Exact(s.frames, s.table)
    && Owned(s.frames, s.table)
    && Injective(s.table)
    && DirtyTracked(s.cache, s.table)
  }

  // ---------- What does not depend on the data cached ----------

  /** As Inv, but lines may hold data that memory does not. Kept by every public call. */
  ghost predicate Sound(s: State) {
    Shaped(s.cache) && Counted(s.frames, s.table)
  }

  /** As AllocInv, but lines may hold data that memory does not. Kept by every allocator call. */
  ghost predicate AllocSound(s: State) {
    && Shaped(s.cache)
    && Exact(s.frames, s.table)
    && Owned(s.frames, s.table)
    && Injective(s.table)
    && DirtyTracked(s.cache, s.table)
  }

  predicate SameTables(s: State, r: State) {
    r.frames == s.frames && r.table == s.table && r.clock == s.clock
  }

  /** Equal but for memory and the data of the lines. */
  ghost predicate Alike(s: State, r: State) {
    SameTables(s, r) && AlikeCaches(s.cache, r.cache)
  }

  ghost predicate AlikeCaches(c: Cache, d: Cache) {
    forall k | 0 <= k < CACHE_NUM_SETS :: SameDirectory(c[k], d[k])
  }

  lemma AlikeDirty(c: Cache, d: Cache, tag: u32)
    requires AlikeCaches(c, d)
    ensures LineDirty(d, tag) <==> LineDirty(c, tag)
  {
    var k := tag % CACHE_NUM_SETS;
    assert forall w | 0 <= w < CACHE_NUM_WAYS ::
        (Holds(d[k][w], tag) && d[k][w].dirty) == (Holds(c[k][w], tag) && c[k][w].dirty);
  }

  lemma AlikeKeeps(s: State, r: State)
    requires Alike(s, r)
    ensures Sound(r) <==> Sound(s)
    ensures AllocSound(r) <==> AllocSound(s)
  {
    forall k | 0 <= k < CACHE_NUM_SETS
      ensures SetShaped(r.cache[k], k) <==> SetShaped(s.cache[k], k)
    {
      assert SameDirectory(s.cache[k], r.cache[k]);
    }
    forall tag: u32
      ensures LineDirty(r.cache, tag) <==> LineDirty(s.cache, tag)
    {
      AlikeDirty(s.cache, r.cache, tag);
    }
    hide Exact, Owned, Injective, Counted, SetShaped, LineDirty, DirtyPage, SameDirectory;
  }

  function RepairedSet(c: CacheSet, m: Memory): CacheSet {
    seq(CACHE_NUM_WAYS, w requires 0 <= w < CACHE_NUM_WAYS =>
      if c[w].valid && c[w].tag < TOTAL_TAGS then c[w].(data := Line(m, c[w].tag)) else c[w])
  }

  /** The state with every line refreshed from memory. */
  function Repaired(s: State): State {
    s.(cache := seq(CACHE_NUM_SETS, k requires 0 <= k < CACHE_NUM_SETS => RepairedSet(s.cache[k], s.mem)))
  }

  /** Whatever a well-shaped cache holds, there is a coherent state that only differs in the data of lines. */
  lemma RepairedCoherent(s: State)
    ensures Alike(s, Repaired(s)) && Repaired(s).mem == s.mem
    ensures Shaped(s.cache) ==> Coherent(Repaired(s).cache, s.mem)
  {
    if Shaped(s.cache) {
      forall k | 0 <= k < CACHE_NUM_SETS
        ensures SetCoherent(Repaired(s).cache[k], k, s.mem)
      {
        assert SetShaped(s.cache[k], k);
      }
    }
  }

  lemma CoherentShaped(c: Cache, m: Memory)
    requires Coherent(c, m)
    ensures Shaped(c)
  {
    forall k | 0 <= k < CACHE_NUM_SETS
      ensures SetShaped(c[k], k)
    {
      assert SetCoherent(c[k], k, m);
    }
  }

  lemma InvSound(s: State)
    ensures Inv(s) <==> Sound(s) && Coherent(s.cache, s.mem)
  {
    if Coherent(s.cache, s.mem) { CoherentShaped(s.cache, s.mem); }
  }

  lemma AllocInvSound(s: State)
    ensures AllocInv(s) <==> AllocSound(s) && Coherent(s.cache, s.mem)
  {
    if Coherent(s.cache, s.mem) { CoherentShaped(s.cache, s.mem); }
  }

  lemma AllocInvImpliesInv(s: State)
    requires AllocInv(s)
    ensures Inv(s)
  {
    forall f: FrameIndex
      ensures FrameCounted(s.frames[f], Mappings(s.table, f))
    {
      assert FrameExact(s.frames[f], Mappings(s.table, f));
    }
  }

  lemma InitialInv(mem: Memory)
    ensures AllocInv(Initial(mem))
  {
    var s := Initial(mem);
    forall f: FrameIndex
      ensures FrameExact(s.frames[f], Mappings(s.table, f))
    {
      assert forall q, l | 0 <= q < MAX_PROCESSES && 0 <= l < MAX_PAGES_PER_PROC :: Hit(s.table[q][l], f) == 0;
    }
  }

  // ---------- Changes that keep the mapping ----------

  /** Same pages mapped to the same frames. */
  ghost predicate SameMap(t: PageTable, u: PageTable) {
    forall p, l | 0 <= p < MAX_PROCESSES && 0 <= l < MAX_PAGES_PER_PROC ::
      u[p][l].valid == t[p][l].valid && u[p][l].physicalPage == t[p][l].physicalPage
  }

  /** Frames equal except for their access times. */
  ghost predicate SameFrames(a: FrameTable, b: FrameTable) {
    forall f: FrameIndex :: b[f].status == a[f].status && b[f].owner == a[f].owner && b[f].refCount == a[f].refCount
  }

  lemma {:induction false} SameRowCounts(row: seq<Pte>, r: seq<Pte>, f: FrameIndex)
    requires |r| == |row| && forall l | 0 <= l < |row| :: Hit(r[l], f) == Hit(row[l], f)
    ensures RowMappings(r, f) == RowMappings(row, f)
  {
    if row != [] { SameRowCounts(row[..|row| - 1], r[..|row| - 1], f); }
  }

  lemma {:induction false} SameMapCounts(t: seq<PageRow>, u: seq<PageRow>, f: FrameIndex)
    requires |u| == |t|
    requires forall p, l | 0 <= p < |t| && 0 <= l < MAX_PAGES_PER_PROC :: Hit(u[p][l], f) == Hit(t[p][l], f)
    ensures Mappings(u, f) == Mappings(t, f)
  {
    if t != [] {
      var k := |t| - 1;
      SameMapCounts(t[..k], u[..k], f);
      SameRowCounts(t[k], u[k], f);
    }
  }

  /** Bookkeeping changes keep every count, owner and mapping fact. */
  lemma SameMapKeeps(s: State, s': State)
    requires SameMap(s.table, s'.table) && SameFrames(s.frames, s'.frames)
    ensures Counted(s.frames, s.table) ==> Counted(s'.frames, s'.table)
    ensures Exact(s.frames, s.table) ==> Exact(s'.frames, s'.table)
    ensures Owned(s.frames, s.table) ==> Owned(s'.frames, s'.table)
    ensures Injective(s.table) ==> Injective(s'.table)
  {
    forall f: FrameIndex
      ensures FrameCounted(s.frames[f], Mappings(s.table, f)) ==> FrameCounted(s'.frames[f], Mappings(s'.table, f))
      ensures FrameExact(s.frames[f], Mappings(s.table, f)) ==> FrameExact(s'.frames[f], Mappings(s'.table, f))
    {
      SameMapCounts(s.table, s'.table, f);
    }
  }
}
