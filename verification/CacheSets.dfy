/** One set of the 4-way cache: lookup, victim choice, fill, store and coherence with memory. */
module CacheSets {
  import opened Words
  import opened Sram

  const CACHE_NUM_WAYS := 4
  const CACHE_NUM_SETS := 4

  datatype CacheLine = CacheLine(tag: u32, valid: bool, dirty: bool, data: LineData, lastAccess: u32)

  const EMPTY_LINE := CacheLine(0, false, false, seq(CACHE_LINE_SIZE, _ => 0), 0)

  type CacheSet = c: seq<CacheLine> | |c| == CACHE_NUM_WAYS witness seq(CACHE_NUM_WAYS, _ => EMPTY_LINE)

  type Cache = c: seq<CacheSet> | |c| == CACHE_NUM_SETS
    witness seq(CACHE_NUM_SETS, _ => seq(CACHE_NUM_WAYS, _ => EMPTY_LINE))

  predicate Holds(line: CacheLine, tag: u32) {
    line.valid && line.tag == tag
  }

  /** The first line holding the tag, or |c| if none does. */
  function Lookup(c: seq<CacheLine>, tag: u32): (w: nat)
    ensures w <= |c|
    ensures w < |c| ==> Holds(c[w], tag)
    ensures forall v | 0 <= v < w :: !Holds(c[v], tag)
  {
    if c == [] then 0
    else
      var k := |c| - 1;
      var w := Lookup(c[..k], tag);
      if w == k && !Holds(c[k], tag) then |c| else w
  }

  /** The first invalid line, or |c| if all are valid. */
  function FreeWay(c: seq<CacheLine>): (w: nat)
    ensures w <= |c|
    ensures w < |c| ==> !c[w].valid
    ensures forall v | 0 <= v < w :: c[v].valid
  {
    if c == [] then 0
    else
      var k := |c| - 1;
      var w := FreeWay(c[..k]);
      if w == k && c[k].valid then |c| else w
  }

  /** The first line with the smallest access stamp. */
  function LruWay(c: seq<CacheLine>): (w: nat)
    requires c != []
    ensures w < |c|
    ensures forall v | 0 <= v < |c| :: c[w].lastAccess <= c[v].lastAccess
    ensures forall v | 0 <= v < w :: c[w].lastAccess < c[v].lastAccess
  {
    var k := |c| - 1;
    if k == 0 then 0
    else
      var w := LruWay(c[..k]);
      if c[k].lastAccess < c[w].lastAccess then k else w
  }

  function VictimWay(c: seq<CacheLine>): (w: nat)
    requires c != []
    ensures w < |c|
  {
    if FreeWay(c) < |c| then FreeWay(c) else LruWay(c)
  }

  /** The way that serves an access to the tag: the hit, else the victim. */
  function Slot(c: seq<CacheLine>, tag: u32): (w: nat)
    requires c != []
    ensures w < |c|
  {
    if Lookup(c, tag) < |c| then Lookup(c, tag) else VictimWay(c)
  }

  /** Serve an access: refresh the stamp on a hit, fill the victim on a miss. */
  function Access(c: seq<CacheLine>, tag: u32, now: u32, fill: LineData): (r: seq<CacheLine>)
    requires c != []
    ensures |r| == |c|
  {
    var w := Slot(c, tag);
    c[w := if Holds(c[w], tag) then c[w].(lastAccess := now) else CacheLine(tag, true, false, fill, now)]
  }

  /** Serve a write: access, then change one byte of the line and mark it dirty. */
  function Store(c: CacheSet, tag: u32, now: u32, fill: LineData, offset: nat, b: u8): CacheSet
    requires offset < CACHE_LINE_SIZE
  {
    var w := Slot(c, tag);
    var line := Access(c, tag, now, fill)[w];
    c[w := line.(data := line.data[offset := b], dirty := true)]
  }

  /** Drop the line holding the tag (keeping its dirty bit), or only mark it clean. */
  function ScrubSet(c: CacheSet, tag: u32, drop: bool): CacheSet {
    var w := Lookup(c, tag);
    if w == CACHE_NUM_WAYS then c
    else c[w := if drop then c[w].(valid := false) else c[w].(dirty := false)]
  }

  // ---------- The directory: everything about the lines but their data ----------

  /** Lines equal in tag, validity, dirtiness and stamp. */
  ghost predicate SameDirectory(c: CacheSet, d: CacheSet) {
    forall w | 0 <= w < CACHE_NUM_WAYS :: d[w] == c[w].(data := d[w].data)
  }

  /** Lookup and victim choice only depend on the directory. */
  lemma DirectoryDecides(c: CacheSet, d: CacheSet, tag: u32)
    requires SameDirectory(c, d)
    ensures Lookup(d, tag) == Lookup(c, tag) && FreeWay(d) == FreeWay(c) && LruWay(d) == LruWay(c)
  {
    assert forall w | 0 <= w < CACHE_NUM_WAYS :: Holds(d[w], tag) == Holds(c[w], tag) && d[w].valid == c[w].valid;
    assert d[LruWay(d)].lastAccess == c[LruWay(d)].lastAccess;
    assert d[LruWay(c)].lastAccess == c[LruWay(c)].lastAccess;
  }

  lemma AccessDirectory(c: CacheSet, d: CacheSet, tag: u32, now: u32, fill: LineData, other: LineData)
    requires SameDirectory(c, d)
    ensures SameDirectory(Access(c, tag, now, fill), Access(d, tag, now, other))
    ensures Slot(d, tag) == Slot(c, tag)
  {
    DirectoryDecides(c, d, tag);
    hide Lookup, FreeWay, LruWay;
  }

  lemma StoreDirectory(c: CacheSet, d: CacheSet, tag: u32, now: u32, fill: LineData, other: LineData,
                       o: nat, b: u8, e: u8)
    requires SameDirectory(c, d) && o < CACHE_LINE_SIZE
    ensures SameDirectory(Store(c, tag, now, fill, o, b), Store(d, tag, now, other, o, e))
  {
    AccessDirectory(c, d, tag, now, fill, other);
    hide Access, Slot;
  }

  lemma ScrubDirectory(c: CacheSet, d: CacheSet, tag: u32, drop: bool)
    requires SameDirectory(c, d)
    ensures SameDirectory(ScrubSet(c, tag, drop), ScrubSet(d, tag, drop))
  {
    DirectoryDecides(c, d, tag);
    hide Lookup;
  }

  /** Every valid line belongs to set k, and no tag is held twice. */
  ghost predicate SetShaped(c: CacheSet, k: nat) {
    && (forall w | 0 <= w < CACHE_NUM_WAYS && c[w].valid :: c[w].tag < TOTAL_TAGS && c[w].tag % CACHE_NUM_SETS == k)
    && (forall v, w | 0 <= v < w < CACHE_NUM_WAYS && c[v].valid && c[w].valid :: c[v].tag != c[w].tag)
  }

  ghost predicate Shaped(c: Cache) {
    forall k | 0 <= k < CACHE_NUM_SETS :: SetShaped(c[k], k)
  }

  // ---------- Coherence ----------

  predicate LineCoherent(line: CacheLine, k: nat, m: Memory) {
    line.tag < TOTAL_TAGS && line.tag % CACHE_NUM_SETS == k && line.data == Line(m, line.tag)
  }

  /** Every valid line belongs to set k and equals memory; no tag is held twice. */
  ghost predicate SetCoherent(c: CacheSet, k: nat, m: Memory) {
    && (forall w | 0 <= w < CACHE_NUM_WAYS && c[w].valid :: LineCoherent(c[w], k, m))
    && (forall v, w | 0 <= v < w < CACHE_NUM_WAYS && c[v].valid && c[w].valid :: c[v].tag != c[w].tag)
  }

  ghost predicate Coherent(c: Cache, m: Memory) {
    forall k | 0 <= k < CACHE_NUM_SETS :: SetCoherent(c[k], k, m)
  }

  lemma AccessKeepsCoherent(c: CacheSet, k: nat, m: Memory, tag: u32, now: u32)
    requires SetCoherent(c, k, m) && tag < TOTAL_TAGS && tag % CACHE_NUM_SETS == k
    ensures SetCoherent(Access(c, tag, now, Line(m, tag)), k, m)
    ensures Access(c, tag, now, Line(m, tag))[Slot(c, tag)].data == Line(m, tag)
  {
  }

  /** A memory write leaves the line of every other tag alone. */
  lemma OtherLineUnchanged(m: Memory, pa: nat, b: u8, tag: nat)
    requires pa < SRAM_SIZE && tag < TOTAL_TAGS && tag != pa / CACHE_LINE_SIZE
    ensures Line(m[pa := b], tag) == Line(m, tag)
  {
  }

  lemma OwnLineUpdated(m: Memory, pa: nat, b: u8)
    requires pa < SRAM_SIZE
    ensures Line(m[pa := b], pa / CACHE_LINE_SIZE)
         == Line(m, pa / CACHE_LINE_SIZE)[pa % CACHE_LINE_SIZE := b]
  {
  }

  lemma StoreKeepsCoherent(c: CacheSet, k: nat, m: Memory, pa: nat, now: u32, b: u8)
    requires pa < SRAM_SIZE && (pa / CACHE_LINE_SIZE) % CACHE_NUM_SETS == k
    requires SetCoherent(c, k, m)
    ensures SetCoherent(
      Store(c, pa / CACHE_LINE_SIZE, now, Line(m, pa / CACHE_LINE_SIZE), pa % CACHE_LINE_SIZE, b), k, m[pa := b])
  {
    var tag := pa / CACHE_LINE_SIZE;
    var a := Access(c, tag, now, Line(m, tag));
    AccessKeepsCoherent(c, k, m, tag, now);
    OwnLineUpdated(m, pa, b);
    forall w | 0 <= w < CACHE_NUM_WAYS && a[w].valid && a[w].tag != tag
      ensures LineCoherent(a[w], k, m[pa := b])
    {
      OtherLineUnchanged(m, pa, b, a[w].tag);
    }
  }

  /** A write to a line of another set leaves this set coherent. */
  lemma ForeignWriteKeepsCoherent(c: CacheSet, k: nat, m: Memory, pa: nat, b: u8)
    requires pa < SRAM_SIZE && (pa / CACHE_LINE_SIZE) % CACHE_NUM_SETS != k
    requires SetCoherent(c, k, m)
    ensures SetCoherent(c, k, m[pa := b])
  {
    forall w | 0 <= w < CACHE_NUM_WAYS && c[w].valid
      ensures LineCoherent(c[w], k, m[pa := b])
    {
      OtherLineUnchanged(m, pa, b, c[w].tag);
    }
  }

  lemma ScrubKeepsCoherent(c: CacheSet, k: nat, m: Memory, tag: u32, drop: bool)
    requires SetCoherent(c, k, m)
    ensures SetCoherent(ScrubSet(c, tag, drop), k, m)
  {
  }
}
