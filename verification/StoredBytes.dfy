/** What becomes of one byte: whatever else the cache gets wrong, a byte that cache and memory agree on stays what it is
    until it is written, and a write makes cache and memory agree on it. */
module StoredBytes {
  import opened Words
  import opened Sram
  import opened CacheSets
  import opened PageCacheModel
  import opened PageCacheInvariants
  import opened PageCacheSteps
  import opened PagedViews
  import opened Writebacks
  import opened PagedLifetimes
  import opened PageCacheRuns
  import opened AllocatorRuns
  import Code = WritebackModel

  // ---------- One byte of one set ----------

  /** If the line is resident, its byte at the offset is v. */
  predicate SetAgrees(c: CacheSet, tag: u32, o: nat, v: u8)
    requires o < CACHE_LINE_SIZE
  {
    Lookup(c, tag) < CACHE_NUM_WAYS ==> c[Lookup(c, tag)].data[o] == v
  }

  lemma OnlyLine(c: CacheSet, k: nat, w: nat)
    requires SetShaped(c, k) && w < CACHE_NUM_WAYS && c[w].valid
    ensures Lookup(c, c[w].tag) == w && c[w].tag < TOTAL_TAGS && c[w].tag % CACHE_NUM_SETS == k
  {
    assert Holds(c[w], c[w].tag);
  }

  lemma AccessAgrees(c: CacheSet, k: nat, tag: u32, now: u32, fill: LineData, t: u32, o: nat, v: u8)
    requires SetShaped(c, k) && tag < TOTAL_TAGS && tag % CACHE_NUM_SETS == k && o < CACHE_LINE_SIZE
    requires SetAgrees(c, t, o, v) && (tag == t ==> fill[o] == v)
    ensures SetShaped(Access(c, tag, now, fill), k) && SetAgrees(Access(c, tag, now, fill), t, o, v)
  {
    var r, w := Access(c, tag, now, fill), Slot(c, tag);
    assert SetShaped(r, k);
    var x := Lookup(r, t);
    if x < CACHE_NUM_WAYS && x != w {
      OnlyLine(c, k, x);
    }
  }

  lemma StoreAgrees(c: CacheSet, k: nat, tag: u32, now: u32, fill: LineData, p: nat, b: u8, t: u32, o: nat, v: u8)
    requires SetShaped(c, k) && tag < TOTAL_TAGS && tag % CACHE_NUM_SETS == k
    requires p < CACHE_LINE_SIZE && o < CACHE_LINE_SIZE
    requires if tag == t && p == o then b == v else SetAgrees(c, t, o, v) && (tag == t ==> fill[o] == v)
    ensures SetShaped(Store(c, tag, now, fill, p, b), k) && SetAgrees(Store(c, tag, now, fill, p, b), t, o, v)
  {
    var r, w := Store(c, tag, now, fill, p, b), Slot(c, tag);
    if !(tag == t && p == o) {
      AccessAgrees(c, k, tag, now, fill, t, o, v);
    }
    assert r[w].tag == tag && SetShaped(r, k);
    var x := Lookup(r, t);
    if x < CACHE_NUM_WAYS && x != w {
      OnlyLine(c, k, x);
    }
  }

  lemma ScrubAgrees(c: CacheSet, k: nat, tag: u32, drop: bool, t: u32, o: nat, v: u8)
    requires SetShaped(c, k) && o < CACHE_LINE_SIZE && SetAgrees(c, t, o, v)
    ensures SetShaped(ScrubSet(c, tag, drop), k) && SetAgrees(ScrubSet(c, tag, drop), t, o, v)
  {
    var x := Lookup(ScrubSet(c, tag, drop), t);
    if x < CACHE_NUM_WAYS {
      OnlyLine(c, k, x);
    }
  }

  // ---------- One byte of memory ----------

  /** The line of the byte, if cached, holds what memory does there. */
  predicate Agrees(c: Cache, m: Memory, pa: nat)
    requires pa < SRAM_SIZE
  {
    SetAgrees(c[pa / CACHE_LINE_SIZE % CACHE_NUM_SETS], pa / CACHE_LINE_SIZE, pa % CACHE_LINE_SIZE, m[pa])
  }

  /** Cache and memory agree that the byte is b. */
  ghost predicate ByteIs(s: State, pa: nat, b: u8) {
    pa < SRAM_SIZE && Shaped(s.cache) && s.mem[pa] == b && Agrees(s.cache, s.mem, pa)
  }

  lemma CoherentAgrees(c: Cache, m: Memory, pa: nat)
    requires Coherent(c, m) && pa < SRAM_SIZE
    ensures Shaped(c) && Agrees(c, m, pa)
  {
    var tag := pa / CACHE_LINE_SIZE;
    CoherentShaped(c, m);
    assert SetCoherent(c[tag % CACHE_NUM_SETS], tag % CACHE_NUM_SETS, m);
  }

  lemma LineGap(tag: nat, pa: nat)
    requires tag < TOTAL_TAGS && pa < SRAM_SIZE
    ensures var gap := Gap(tag * CACHE_LINE_SIZE, pa);
      if tag == pa / CACHE_LINE_SIZE then gap == pa % CACHE_LINE_SIZE else gap >= CACHE_LINE_SIZE
  {
  }

  /** A line written back to its own place changes no byte that cache and memory agree on. */
  lemma WriteBackKeeps(c: Cache, m: Memory, k: nat, w: nat, pa: nat)
    requires Shaped(c) && k < CACHE_NUM_SETS && w < CACHE_NUM_WAYS && c[k][w].valid
    requires pa < SRAM_SIZE && Agrees(c, m, pa)
    ensures Code.WriteBack(m, c[k][w])[pa] == m[pa]
  {
    OnlyLine(c[k], k, w);
    LineGap(c[k][w].tag, pa);
  }

  lemma RoomKeepsByte(s: State, x: nat, pa: nat, b: u8)
    requires ByteIs(s, pa, b) && x < SRAM_SIZE
    ensures ByteIs(Code.RoomFor(s, x), pa, b)
  {
    var tag := x / CACHE_LINE_SIZE;
    var k := tag % CACHE_NUM_SETS;
    var c := s.cache[k];
    hide Code.WriteBack;
    if FreeWay(c) == CACHE_NUM_WAYS {
      WriteBackKeeps(s.cache, s.mem, k, LruWay(c), pa);
    }
  }

  // ---------- Cached access ----------

  lemma ReadKeepsByte(s: State, pid: u8, addr: u32, pa: nat, b: u8)
    requires ByteIs(s, pa, b)
    ensures ByteIs(Code.ReadByte(s, pid, addr), pa, b)
  {
    if Mapped(s.table, pid, addr) {
      var x := Translate(s.table, pid, addr);
      var t := Code.RoomFor(s, x);
      RoomKeepsByte(s, x, pa, b);
      CacheAccessKeeps(t, x, Tick(t.clock), pa, b);
      hide AccessCache, Code.RoomFor, Translate, Agrees, Shaped;
      var u := t.(cache := AccessCache(t.cache, t.mem, x, Tick(t.clock)), clock := Tick(t.clock));
      TouchEffect(u, pid, PageOf(addr));
    }
  }

  lemma CacheAccessKeeps(s: State, x: nat, now: u32, pa: nat, b: u8)
    requires ByteIs(s, pa, b) && x < SRAM_SIZE
    ensures Shaped(AccessCache(s.cache, s.mem, x, now)) && Agrees(AccessCache(s.cache, s.mem, x, now), s.mem, pa)
  {
    var tag, t := x / CACHE_LINE_SIZE, pa / CACHE_LINE_SIZE;
    var k := tag % CACHE_NUM_SETS;
    if t % CACHE_NUM_SETS == k {
      AccessAgrees(s.cache[k], k, tag, now, Line(s.mem, tag), t, pa % CACHE_LINE_SIZE, b);
    } else {
      AccessShaped(s.cache[k], k, tag, now, Line(s.mem, tag));
    }
    hide Access, SetAgrees, SetShaped;
  }

  lemma AccessShaped(c: CacheSet, k: nat, tag: u32, now: u32, fill: LineData)
    requires SetShaped(c, k) && tag < TOTAL_TAGS && tag % CACHE_NUM_SETS == k
    ensures SetShaped(Access(c, tag, now, fill), k)
  {
  }

  /** A cached write settles its byte and keeps every other that cache and memory agree on. */
  lemma WriteKeepsByte(s: State, pid: u8, addr: u32, e: u8, pa: nat, b: u8)
    requires Shaped(s.cache) && pa < SRAM_SIZE
    requires if Translate(s.table, pid, addr) == pa then e == b else ByteIs(s, pa, b)
    ensures ByteIs(Code.WriteByte(s, pid, addr, e), pa, b)
  {
    if Mapped(s.table, pid, addr) {
      var x := Translate(s.table, pid, addr);
      var t := Code.RoomFor(s, x);
      if x != pa { RoomKeepsByte(s, x, pa, b); }
      CacheStoreKeeps(t, x, Tick(t.clock), e, pa, b);
      hide StoreCache, Code.RoomFor, Translate, Agrees, Shaped;
      var lp := PageOf(addr);
      TouchEffect(t.(cache := StoreCache(t.cache, t.mem, x, Tick(t.clock), e), mem := t.mem[x := e],
                     table := SetPte(t.table, pid, lp, t.table[pid][lp].(dirty := true)), clock := Tick(t.clock)),
                  pid, lp);
    }
  }

  lemma CacheStoreKeeps(s: State, x: nat, now: u32, e: u8, pa: nat, b: u8)
    requires Shaped(s.cache) && x < SRAM_SIZE && pa < SRAM_SIZE
    requires if x == pa then e == b else ByteIs(s, pa, b)
    ensures var c := StoreCache(s.cache, s.mem, x, now, e);
      Shaped(c) && Agrees(c, s.mem[x := e], pa) && s.mem[x := e][pa] == b
  {
    var tag, t := x / CACHE_LINE_SIZE, pa / CACHE_LINE_SIZE;
    var k := tag % CACHE_NUM_SETS;
    if t % CACHE_NUM_SETS == k {
      StoreAgrees(s.cache[k], k, tag, now, Line(s.mem, tag), x % CACHE_LINE_SIZE, e, t, pa % CACHE_LINE_SIZE, b);
    } else {
      StoreAgrees(s.cache[k], k, tag, now, Line(s.mem, tag), x % CACHE_LINE_SIZE, e, tag, x % CACHE_LINE_SIZE, e);
    }
    hide Store, SetAgrees, SetShaped;
  }

  /** A cached read hands out a byte that cache and memory agree on. */
  lemma CachedByteIs(s: State, pid: u8, addr: u32, b: u8)
    requires Mapped(s.table, pid, addr) && ByteIs(s, Translate(s.table, pid, addr), b)
    ensures Code.CachedByte(s, pid, addr) == b
  {
    var pa := Translate(s.table, pid, addr);
    var t, tag := Code.RoomFor(s, pa), pa / CACHE_LINE_SIZE;
    RoomKeepsByte(s, pa, pa, b);
    hide Code.RoomFor;
    CacheAccessKeeps(t, pa, Tick(t.clock), pa, b);
    var k := tag % CACHE_NUM_SETS;
    ServedSlot(t.cache[k], k, tag, Tick(t.clock), Line(t.mem, tag));
    hide Access, SetShaped;
  }

  lemma ServedSlot(c: CacheSet, k: nat, tag: u32, now: u32, fill: LineData)
    requires SetShaped(c, k) && tag < TOTAL_TAGS && tag % CACHE_NUM_SETS == k
    ensures Lookup(Access(c, tag, now, fill), tag) == Slot(c, tag)
  {
    AccessShaped(c, k, tag, now, fill);
    OnlyLine(Access(c, tag, now, fill), k, Slot(c, tag));
  }

  /** Isolation byte by byte: after a cached write, a process reads the byte written at exactly that address, and at
      every other address on which cache and memory agreed it reads what it read before. */
  lemma CachedWriteIsolation(s: State, pid: u8, addr: u32, e: u8, q: u8, a: u32)
    requires Shaped(s.cache) && Injective(s.table) && Mapped(s.table, pid, addr) && Mapped(s.table, q, a)
    requires Agrees(s.cache, s.mem, Translate(s.table, q, a))
    ensures Code.CachedByte(Code.WriteByte(s, pid, addr, e), q, a)
         == if q == pid && SameAddress(a, addr) then e else Code.CachedByte(s, q, a)
  {
    var pa, r := Translate(s.table, q, a), Code.WriteByte(s, pid, addr, e);
    hide Code.WriteByte, Code.CachedByte, Shaped, Agrees, Injective, SameAddress, Mapped, Translate, SameMap;
    TranslateInjective(s.table, pid, addr, q, a);
    MappedBySame(s.table, pid, addr, a);
    AccessKeepsMap(s, pid, addr, e);
    SameMapMapped(s.table, r.table, q, a);
    CachedByteIs(s, q, a, s.mem[pa]);
    var b := if Translate(s.table, pid, addr) == pa then e else s.mem[pa];
    WriteKeepsByte(s, pid, addr, e, pa, b);
    CachedByteIs(r, q, a, b);
  }

  lemma TranslateInBounds(t: PageTable, pid: u8, addr: u32)
    requires Mapped(t, pid, addr)
    ensures Translate(t, pid, addr) < SRAM_SIZE
  {
  }

  lemma NoByteUnmapped(s: State, pid: u8, addr: u32)
    requires !Mapped(s.table, pid, addr)
    ensures Code.CachedByte(s, pid, addr) == 0
  {
  }

  /** Isolation in every state an allocator run reaches: a cached write changes what exactly one (process, address) pair
      reads, as far as cache and memory agree on what was read before; after safe calls they agree everywhere. */
  lemma RunIsolation(mem: Memory, ops: seq<Op>, pid: u8, addr: u32, e: u8, q: u8, a: u32)
    requires AllocatorRun(ops)
    ensures var s := Run(Initial(mem), ops);
      Mapped(s.table, pid, addr)
      && (AllSafe(Initial(mem), ops) || (Mapped(s.table, q, a) && Agrees(s.cache, s.mem, Translate(s.table, q, a)))) ==>
        Code.CachedByte(Code.WriteByte(s, pid, addr, e), q, a)
          == if q == pid && SameAddress(a, addr) then e else Code.CachedByte(s, q, a)
  {
    var s := Run(Initial(mem), ops);
    hide Run, AllSafe, Code.WriteByte, Code.CachedByte, Agrees, SameAddress, Mapped, Translate, Exact, Owned, Injective;
    hide DirtyTracked, Coherent, SameMap, Shaped;
    InitialAllocSound(mem);
    RunKeepsAllocSound(Initial(mem), ops);
    if Mapped(s.table, q, a) {
      if AllSafe(Initial(mem), ops) {
        SafeRunKeepsAllocInv(Initial(mem), ops);
        TranslateInBounds(s.table, q, a);
        CoherentAgrees(s.cache, s.mem, Translate(s.table, q, a));
      }
      if Mapped(s.table, pid, addr) && Agrees(s.cache, s.mem, Translate(s.table, q, a)) {
        CachedWriteIsolation(s, pid, addr, e, q, a);
      }
    } else {
      AccessKeepsMap(s, pid, addr, e);
      SameMapMapped(s.table, Code.WriteByte(s, pid, addr, e).table, q, a);
      MappedBySame(s.table, pid, addr, a);
      NoByteUnmapped(s, q, a);
      NoByteUnmapped(Code.WriteByte(s, pid, addr, e), q, a);
    }
  }

  // ---------- Arrays ----------

  lemma {:induction false} WriteArrayKeepsByte(s: State, pid: u8, addr: u32, data: seq<u8>, pa: nat, b: u8)
    requires ByteIs(s, pa, b) && Misses(s.table, pid, addr, |data|, pa)
    ensures ByteIs(Code.WriteArray(s, pid, addr, data), pa, b)
    decreases |data|
  {
    hide ByteIs, At, Translate, Code.WriteByte, SameMap, Misses;
    if data != [] {
      var t := Code.WriteByte(s, pid, addr, data[0]);
      MissesFirst(s.table, pid, addr, |data|, pa);
      ByteIsShaped(s, pa, b);
      WriteKeepsByte(s, pid, addr, data[0], pa, b);
      AccessKeepsMap(s, pid, addr, data[0]);
      RangeTail(s.table, t.table, pid, addr, |data|);
      WriteArrayKeepsByte(t, pid, At(addr, 1), data[1..], pa, b);
    }
  }

  lemma ByteIsShaped(s: State, pa: nat, b: u8)
    requires ByteIs(s, pa, b)
    ensures Shaped(s.cache) && pa < SRAM_SIZE
  {
  }

  lemma MissesFirst(t: PageTable, pid: u8, addr: u32, len: nat, pa: nat)
    requires len > 0 && Misses(t, pid, addr, len, pa)
    ensures Translate(t, pid, addr) != pa
  {
    AtStep(addr, 0);
    assert Translate(t, pid, At(addr, 0)) != pa;
  }

  /** The byte of position 0 and, for a later position, what the tail of the array starts with. */
  lemma RangeFirst(t: PageTable, pid: u8, addr: u32, len: nat)
    requires len > 0 && RangeMapped(t, pid, addr, len) && RangeDistinct(t, pid, addr, len)
    ensures Mapped(t, pid, addr) && Translate(t, pid, At(addr, 0)) == Translate(t, pid, addr) < SRAM_SIZE
    ensures Misses(t, pid, At(addr, 1), len - 1, Translate(t, pid, addr))
  {
    AtStep(addr, 0);
    assert Mapped(t, pid, At(addr, 0));
    forall i: nat | i < len - 1
      ensures Translate(t, pid, At(At(addr, 1), i)) != Translate(t, pid, addr)
    {
      AtStep(addr, i);
      assert Translate(t, pid, At(addr, 0)) != Translate(t, pid, At(addr, i + 1));
    }
  }

  lemma SameMapMisses(t: PageTable, u: PageTable, pid: u8, addr: u32, len: nat, pa: nat)
    requires SameMap(t, u) && Misses(t, pid, addr, len, pa)
    ensures Misses(u, pid, addr, len, pa)
  {
    hide SameMap, At, Translate;
    forall i: nat | i < len
      ensures Translate(u, pid, At(addr, i)) != pa
    {
      SameMapMapped(t, u, pid, At(addr, i));
    }
  }

  /** Every position of an array written ends up settled, whatever state the cache was in. */
  lemma {:induction false} WriteArraySettles(s: State, pid: u8, addr: u32, data: seq<u8>, i: nat)
    requires Shaped(s.cache) && i < |data|
    requires RangeMapped(s.table, pid, addr, |data|) && RangeDistinct(s.table, pid, addr, |data|)
    ensures ByteIs(Code.WriteArray(s, pid, addr, data), Translate(s.table, pid, At(addr, i)), data[i])
    decreases |data|
  {
    hide ByteIs, At, Translate, Mapped, Code.WriteByte, SameMap, Misses, RangeMapped, RangeDistinct, Shaped;
    var t, pa := Code.WriteByte(s, pid, addr, data[0]), Translate(s.table, pid, addr);
    RangeFirst(s.table, pid, addr, |data|);
    AccessKeepsMap(s, pid, addr, data[0]);
    WriteKeepsByte(s, pid, addr, data[0], pa, data[0]);
    ByteIsShaped(t, pa, data[0]);
    if i == 0 {
      SameMapMisses(s.table, t.table, pid, At(addr, 1), |data| - 1, pa);
      WriteArrayKeepsByte(t, pid, At(addr, 1), data[1..], pa, data[0]);
    } else {
      RangeTail(s.table, t.table, pid, addr, |data|);
      WriteArraySettles(t, pid, At(addr, 1), data[1..], i - 1);
      AtStep(addr, i - 1);
      SameMapMapped(s.table, t.table, pid, At(addr, i));
    }
  }

  lemma {:induction false} WriteArrayMap(s: State, pid: u8, addr: u32, data: seq<u8>)
    ensures SameMap(s.table, Code.WriteArray(s, pid, addr, data).table)
    decreases |data|
  {
    hide At, Code.WriteByte, SameMap;
    SameRefl(s);
    if data != [] {
      var t := Code.WriteByte(s, pid, addr, data[0]);
      AccessKeepsMap(s, pid, addr, data[0]);
      WriteArrayMap(t, pid, At(addr, 1), data[1..]);
      SameTrans(s, t, Code.WriteArray(s, pid, addr, data));
    }
  }

  lemma {:induction false} ReadArrayKeepsByte(s: State, pid: u8, addr: u32, len: nat, pa: nat, b: u8)
    requires ByteIs(s, pa, b)
    ensures ByteIs(Code.ReadArray(s, pid, addr, len), pa, b)
    ensures SameMap(s.table, Code.ReadArray(s, pid, addr, len).table)
    decreases len
  {
    hide ByteIs, At, Code.ReadByte, SameMap;
    SameRefl(s);
    if len > 0 {
      var t := Code.ReadArray(s, pid, addr, len - 1);
      ReadArrayKeepsByte(s, pid, addr, len - 1, pa, b);
      ReadKeepsByte(t, pid, At(addr, len - 1), pa, b);
      AccessKeepsMap(t, pid, At(addr, len - 1), 0);
      SameTrans(s, t, Code.ReadArray(s, pid, addr, len));
    }
  }

  /** An array written through the cache is what memory holds and what reads through the cache return, across lines,
      pages and evictions, however stale other lines are. */
  lemma CachedArrayRoundTrip(s: State, pid: u8, addr: u32, data: seq<u8>)
    requires Shaped(s.cache)
    requires RangeMapped(s.table, pid, addr, |data|) && RangeDistinct(s.table, pid, addr, |data|)
    ensures Code.CachedBytes(Code.WriteArray(s, pid, addr, data), pid, addr, |data|) == data
    ensures PeekArray(Code.WriteArray(s, pid, addr, data), pid, addr, |data|) == data
  {
    var r := Code.WriteArray(s, pid, addr, data);
    forall i: nat | i < |data|
      ensures Code.CachedBytes(r, pid, addr, |data|)[i] == data[i] && PeekArray(r, pid, addr, |data|)[i] == data[i]
    {
      ArrayByte(s, pid, addr, data, i);
    }
    hide Code.CachedBytes, PeekArray, Code.WriteArray;
  }

  lemma ArrayByte(s: State, pid: u8, addr: u32, data: seq<u8>, i: nat)
    requires Shaped(s.cache) && i < |data|
    requires RangeMapped(s.table, pid, addr, |data|) && RangeDistinct(s.table, pid, addr, |data|)
    ensures var r := Code.WriteArray(s, pid, addr, data);
      Code.CachedByte(Code.ReadArray(r, pid, addr, i), pid, At(addr, i)) == data[i]
      && Peek(r, pid, At(addr, i)) == data[i]
  {
    var r, a := Code.WriteArray(s, pid, addr, data), At(addr, i);
    var pa := Translate(s.table, pid, a);
    assert Mapped(s.table, pid, a);
    hide At, Translate, Mapped, SameMap, RangeMapped, RangeDistinct, Shaped, Agrees;
    hide Code.WriteArray, Code.ReadArray, Code.CachedByte;
    WriteArraySettles(s, pid, addr, data, i);
    WriteArrayMap(s, pid, addr, data);
    SameMapMapped(s.table, r.table, pid, a);
    var t := Code.ReadArray(r, pid, addr, i);
    ReadArrayKeepsByte(r, pid, addr, i, pa, data[i]);
    SameMapMapped(r.table, t.table, pid, a);
    CachedByteIs(t, pid, a, data[i]);
  }

  lemma ReachableShaped(mem: Memory, ops: seq<Op>)
    ensures Shaped(Run(Initial(mem), ops).cache)
  {
    InitialAllocSound(mem);
    InvSound(Initial(mem));
    RunKeepsSound(Initial(mem), ops);
  }

  /** After any run of public calls whatever, an array of up to a page length, or one over distinct bytes, or, if all
      calls were allocator calls, any mapped array, reads back as it was written. */
  lemma RunArrayRoundTrip(mem: Memory, ops: seq<Op>, pid: u8, addr: u32, data: seq<u8>)
    requires RangeMapped(Run(Initial(mem), ops).table, pid, addr, |data|)
    requires || |data| <= PAGE_SIZE
             || RangeDistinct(Run(Initial(mem), ops).table, pid, addr, |data|)
             || (AllocatorRun(ops) && |data| <= ADDRESS_SPACE)
    ensures Code.CachedBytes(Code.WriteArray(Run(Initial(mem), ops), pid, addr, data), pid, addr, |data|) == data
  {
    hide Run, RangeMapped, RangeDistinct, Code.WriteArray, Code.CachedBytes, PeekArray, Injective, Exact, Owned, Shaped;
    hide DirtyTracked;
    var s := Run(Initial(mem), ops);
    ReachableShaped(mem, ops);
    if |data| <= PAGE_SIZE {
      ShortRangeDistinct(s.table, pid, addr, |data|);
    } else if !RangeDistinct(s.table, pid, addr, |data|) {
      InitialAllocSound(mem);
      RunKeepsAllocSound(Initial(mem), ops);
      InjectiveRangeDistinct(s.table, pid, addr, |data|);
    }
    CachedArrayRoundTrip(s, pid, addr, data);
  }
}
