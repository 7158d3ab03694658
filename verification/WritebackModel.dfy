/** The page-cache manager as a state machine on values, write-backs included: what each public call of the code does
    to the whole state, whether or not the cache agrees with memory. */
module WritebackModel {
  import opened Words
  import opened Sram
  import opened CacheSets
  import opened PageCacheModel
  import Plain = PageCacheModel

  /** A dirty line goes back to the address of its tag. */
  function WriteBack(m: Memory, line: CacheLine): Memory {
    if line.dirty then Overwrite(m, Wrap32(line.tag * CACHE_LINE_SIZE), line.data) else m
  }

  // ---------- Cached byte access ----------

  /** Memory after a full set has made room for the tag: the victim, if dirty, is written back. */
  function Displaced(c: CacheSet, m: Memory, tag: u32): Memory {
    if Lookup(c, tag) < CACHE_NUM_WAYS || FreeWay(c) < CACHE_NUM_WAYS then m else WriteBack(m, c[LruWay(c)])
  }

  /** The state when the line of the physical address can be served. */
  function RoomFor(s: State, pa: nat): State
    requires pa < SRAM_SIZE
  {
    var tag := pa / CACHE_LINE_SIZE;
    s.(mem := Displaced(s.cache[tag % CACHE_NUM_SETS], s.mem, tag))
  }

  function RoomMade(s: State, pid: u8, addr: u32): State {
    if !Mapped(s.table, pid, addr) then s else RoomFor(s, Translate(s.table, pid, addr))
  }

  function ReadByte(s: State, pid: u8, addr: u32): State {
    Plain.ReadByte(RoomMade(s, pid, addr), pid, addr)
  }

  function CachedByte(s: State, pid: u8, addr: u32): u8 {
    Plain.CachedByte(RoomMade(s, pid, addr), pid, addr)
  }

  function WriteByte(s: State, pid: u8, addr: u32, b: u8): State {
    Plain.WriteByte(RoomMade(s, pid, addr), pid, addr, b)
  }

  function ReadArray(s: State, pid: u8, addr: u32, len: nat): State
    decreases len
  {
    if len == 0 then s else ReadByte(ReadArray(s, pid, addr, len - 1), pid, At(addr, len - 1))
  }

  /** The bytes handed out by the reads of an array. */
  function CachedBytes(s: State, pid: u8, addr: u32, len: nat): seq<u8> {
    seq<u8>(len, i requires 0 <= i < len => CachedByte(ReadArray(s, pid, addr, i), pid, At(addr, i)))
  }

  function WriteArray(s: State, pid: u8, addr: u32, data: seq<u8>): State
    decreases |data|
  {
    if data == [] then s else WriteArray(WriteByte(s, pid, addr, data[0]), pid, At(addr, 1), data[1..])
  }

  // ---------- Scrubbing lines ----------

  /** Memory after the line with this tag, if resident, is written back. */
  function LineWritten(c: Cache, m: Memory, tag: u32): Memory {
    var cacheSet := c[tag % CACHE_NUM_SETS];
    if Lookup(cacheSet, tag) < CACHE_NUM_WAYS then WriteBack(m, cacheSet[Lookup(cacheSet, tag)]) else m
  }

  function TagsWritten(c: Cache, m: Memory, lo: u32, hi: u32, drop: bool): Memory
    requires lo <= hi
    decreases hi - lo
  {
    if lo == hi then m
    else LineWritten(ScrubTags(c, lo, hi - 1, drop), TagsWritten(c, m, lo, hi - 1, drop), hi - 1)
  }

  function FrameWritten(s: State, f: FrameIndex, drop: bool): State {
    s.(mem := TagsWritten(s.cache, s.mem, f * LINES_PER_PAGE, f * LINES_PER_PAGE + LINES_PER_PAGE, drop))
  }

  function ScrubProcess(s: State, pid: u8, drop: bool, row: seq<Pte>): State
    requires pid < MAX_PROCESSES && |row| <= MAX_PAGES_PER_PROC
  {
    if row == [] then s
    else
      var lp := |row| - 1;
      var t := ScrubProcess(s, pid, drop, row[..lp]);
      if t.table[pid][lp].valid then ScrubPage(FrameWritten(t, t.table[pid][lp].physicalPage, drop), pid, lp, drop)
      else t
  }

  function InvalidateProcess(s: State, pid: u8): State {
    if pid >= MAX_PROCESSES then s else ScrubProcess(s, pid, true, s.table[pid])
  }

  function FlushProcess(s: State, pid: u8): State {
    if pid >= MAX_PROCESSES then s else ScrubProcess(s, pid, false, s.table[pid])
  }

  /** Memory after the valid dirty lines are written back in order. */
  function LinesWritten(lines: seq<CacheLine>, m: Memory): Memory {
    if lines == [] then m
    else
      var k := |lines| - 1;
      var t := LinesWritten(lines[..k], m);
      if lines[k].valid then WriteBack(t, lines[k]) else t
  }

  function SetsWritten(sets: seq<CacheSet>, m: Memory): Memory {
    if sets == [] then m else LinesWritten(sets[|sets| - 1], SetsWritten(sets[..|sets| - 1], m))
  }

  function FlushCache(s: State): State {
    Plain.FlushCache(s.(mem := SetsWritten(s.cache, s.mem)))
  }

  // ---------- Page table and allocator ----------

  function UnmapPage(s: State, pid: u8, lp: u16): State {
    if ValidPage(s.table, pid, lp) && s.table[pid][lp].dirty
    then Plain.UnmapPage(FrameWritten(s, s.table[pid][lp].physicalPage, true), pid, lp)
    else Plain.UnmapPage(s, pid, lp)
  }

  function UnmapRun(s: State, pid: u8, start: nat, n: nat): State
    requires pid < MAX_PROCESSES && start + n <= MAX_PAGES_PER_PROC
    decreases n
  {
    if n == 0 then s else UnmapRun(UnmapPage(s, pid, start), pid, start + 1, n - 1)
  }

  function PagedMalloc(s: State, pid: u8, size: u16): (r: (State, u32)) {
    if pid >= MAX_PROCESSES || size == 0 || PagesFor(size) > MAX_PAGES_PER_PROC then (s, 0)
    else
      var n := PagesFor(size);
      var start := FirstFit(s.table[pid], n);
      if start == MAX_PAGES_PER_PROC then (s, 0)
      else
        var r := MapRun(s, pid, start, n);
        if r.1 < n then (UnmapRun(r.0, pid, start, r.1), 0) else (r.0, start * PAGE_SIZE)
  }

  function PagedFree(s: State, pid: u8, addr: u32): State {
    if addr == 0 || !Mapped(s.table, pid, addr) then s
    else UnmapRun(s, pid, PageOf(addr), RunLength(s.table[pid], PageOf(addr)))
  }

  function CopyByte(s: State, pid: u8, from: u32, to: u32): State {
    WriteByte(ReadByte(s, pid, from), pid, to, CachedByte(s, pid, from))
  }

  function CopyBytes(s: State, pid: u8, from: u32, to: u32, n: nat): State
    decreases n
  {
    if n == 0 then s else CopyByte(CopyBytes(s, pid, from, to, n - 1), pid, At(from, n - 1), At(to, n - 1))
  }

  function PagedRealloc(s: State, pid: u8, oldAddr: u32, size: u16): (r: (State, u32)) {
    if oldAddr == 0 then PagedMalloc(s, pid, size)
    else if size == 0 then (PagedFree(s, pid, oldAddr), 0)
    else if !Mapped(s.table, pid, oldAddr) then (s, 0)
    else
      var oldSize := RunLength(s.table[pid], PageOf(oldAddr)) * PAGE_SIZE;
      if size <= oldSize then (s, oldAddr)
      else
        var m := PagedMalloc(s, pid, size);
        if m.1 == 0 then m
        else (PagedFree(CopyBytes(m.0, pid, oldAddr, m.1, oldSize), pid, oldAddr), m.1)
  }
}
