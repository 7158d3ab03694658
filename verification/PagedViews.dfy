/** What each process sees: which addresses and array positions share a byte, and what a write changes. */
module PagedViews {
  import opened Words
  import opened PageCacheModel
  import opened PageCacheInvariants
  import opened PageCacheSteps

  /** Addresses are used modulo 2^24: the page number is cut to 16 bits. */
  const ADDRESS_SPACE := 0x100_0000

  predicate SameAddress(a: u32, b: u32) { a % ADDRESS_SPACE == b % ADDRESS_SPACE }

  lemma AddressParts(a: u32)
    ensures a % ADDRESS_SPACE == PageOf(a) * PAGE_SIZE + a % PAGE_SIZE
  {
    QuotientIs(a, ADDRESS_SPACE, a / PAGE_SIZE / 0x1_0000, PageOf(a) * PAGE_SIZE + a % PAGE_SIZE);
  }

  lemma SameAddressMeans(a: u32, b: u32)
    ensures SameAddress(a, b) <==> PageOf(a) == PageOf(b) && a % PAGE_SIZE == b % PAGE_SIZE
  {
    AddressParts(a);
    AddressParts(b);
    hide PageOf;
  }

  ghost predicate SameView(s: State, r: State) {
    forall q: u8, a: u32 :: Mapped(r.table, q, a) == Mapped(s.table, q, a) && Peek(r, q, a) == Peek(s, q, a)
  }

  lemma SameMapSameView(s: State, r: State)
    requires SameMap(s.table, r.table) && r.mem == s.mem
    ensures SameView(s, r)
  {
  }

  /** Two mapped addresses share a byte of memory iff they are the same address of the same process. */
  lemma TranslateInjective(t: PageTable, p: u8, a: u32, q: u8, b: u32)
    requires Injective(t) && Mapped(t, p, a) && Mapped(t, q, b)
    ensures Translate(t, p, a) == Translate(t, q, b) <==> p == q && SameAddress(a, b)
  {
    SameAddressMeans(a, b);
    if Translate(t, p, a) == Translate(t, q, b) {
      assert t[p][PageOf(a)].physicalPage == t[q][PageOf(b)].physicalPage;
    }
  }

  lemma SameMapMapped(t: PageTable, u: PageTable, pid: u8, addr: u32)
    requires SameMap(t, u)
    ensures Mapped(u, pid, addr) == Mapped(t, pid, addr) && Translate(u, pid, addr) == Translate(t, pid, addr)
  {
  }

  lemma MappedBySame(t: PageTable, pid: u8, a: u32, b: u32)
    ensures SameAddress(a, b) ==> Mapped(t, pid, a) == Mapped(t, pid, b)
    ensures SameAddress(a, b) <==> SameAddress(b, a)
  {
    SameAddressMeans(a, b);
  }

  /** Isolation: a cached write changes what is read at exactly one (process, address) pair, to the byte written. */
  lemma WriteIsolation(s: State, pid: u8, addr: u32, b: u8, q: u8, a: u32)
    requires Injective(s.table)
    ensures var r := WriteByte(s, pid, addr, b);
      && Mapped(r.table, q, a) == Mapped(s.table, q, a)
      && Peek(r, q, a) == (if Mapped(s.table, pid, addr) && q == pid && SameAddress(a, addr) then b else Peek(s, q, a))
  {
    WriteEffect(s, pid, addr, b);
    if Mapped(s.table, pid, addr) && Mapped(s.table, q, a) {
      TranslateInjective(s.table, pid, addr, q, a);
    }
    SameMapMapped(s.table, WriteByte(s, pid, addr, b).table, q, a);
    MappedBySame(s.table, pid, addr, a);
    hide WriteByte, SameAddress, Mapped, Injective, SameMap;
  }

  // ---------- Arrays ----------

  /** Every byte of the array lies on a mapped page. */
  predicate RangeMapped(t: PageTable, pid: u8, addr: u32, len: nat) {
    forall i: nat | i < len :: Mapped(t, pid, At(addr, i))
  }

  /** Distinct array positions are distinct bytes of memory. */
  predicate RangeDistinct(t: PageTable, pid: u8, addr: u32, len: nat) {
    forall i: nat, j: nat | i < j < len :: Translate(t, pid, At(addr, i)) != Translate(t, pid, At(addr, j))
  }

  lemma AtAt(addr: u32, i: nat, j: nat)
    ensures At(At(addr, i), j) == At(addr, i + j)
  {
    var q := (addr + i) / 0x1_0000_0000;
    assert At(addr, i) == addr + i - q * 0x1_0000_0000;
    assert addr + i + j == At(addr, i) + j + q * 0x1_0000_0000;
  }

  lemma AtStep(addr: u32, i: nat)
    ensures At(At(addr, 1), i) == At(addr, i + 1)
    ensures At(addr, 0) == addr
  {
    AtAt(addr, 1, i);
  }

  lemma AtModulo(addr: u32, i: nat)
    ensures At(addr, i) % PAGE_SIZE == (addr + i) % PAGE_SIZE
    ensures At(addr, i) % ADDRESS_SPACE == (addr + i) % ADDRESS_SPACE
  {
    var x, q := addr + i, (addr + i) / 0x1_0000_0000;
    assert At(addr, i) == x - q * 0x1_0000_0000;
    hide At;
    QuotientIs(At(addr, i), PAGE_SIZE, x / PAGE_SIZE - q * 0x100_0000, x % PAGE_SIZE);
    QuotientIs(At(addr, i), ADDRESS_SPACE, x / ADDRESS_SPACE - q * 0x100, x % ADDRESS_SPACE);
  }

  lemma AtOffsets(addr: u32, i: nat, j: nat)
    requires i < j
    ensures j - i < PAGE_SIZE ==> At(addr, i) % PAGE_SIZE != At(addr, j) % PAGE_SIZE
    ensures j - i < ADDRESS_SPACE ==> !SameAddress(At(addr, i), At(addr, j))
  {
    hide At;
    AtModulo(addr, i);
    AtModulo(addr, j);
  }

  lemma TranslateOffset(t: PageTable, pid: u8, addr: u32)
    requires Mapped(t, pid, addr)
    ensures Translate(t, pid, addr) % PAGE_SIZE == addr % PAGE_SIZE
  {
  }

  /** Within one page's length no injectivity is needed: positions differ in their page offset. */
  lemma ShortRangeDistinct(t: PageTable, pid: u8, addr: u32, len: nat)
    requires RangeMapped(t, pid, addr, len) && len <= PAGE_SIZE
    ensures RangeDistinct(t, pid, addr, len)
  {
    forall i: nat, j: nat | i < j < len
      ensures Translate(t, pid, At(addr, i)) != Translate(t, pid, At(addr, j))
    {
      AtOffsets(addr, i, j);
      hide At, Translate, Mapped;
      TranslateOffset(t, pid, At(addr, i));
      TranslateOffset(t, pid, At(addr, j));
    }
  }

  /** Longer ranges are distinct when the page table is injective. */
  lemma InjectiveRangeDistinct(t: PageTable, pid: u8, addr: u32, len: nat)
    requires RangeMapped(t, pid, addr, len) && Injective(t) && len <= ADDRESS_SPACE
    ensures RangeDistinct(t, pid, addr, len)
  {
    forall i: nat, j: nat | i < j < len
      ensures Translate(t, pid, At(addr, i)) != Translate(t, pid, At(addr, j))
    {
      hide At, Translate, Mapped, Injective;
      AtOffsets(addr, i, j);
      TranslateInjective(t, pid, At(addr, i), pid, At(addr, j));
    }
  }

  /** The byte of memory is none of the array's. */
  ghost predicate Misses(t: PageTable, pid: u8, addr: u32, len: nat, pa: nat) {
    forall i: nat | i < len :: Translate(t, pid, At(addr, i)) != pa
  }

  lemma RangeTail(t: PageTable, u: PageTable, pid: u8, addr: u32, len: nat)
    requires len > 0 && SameMap(t, u)
    ensures RangeMapped(t, pid, addr, len) ==> RangeMapped(u, pid, At(addr, 1), len - 1)
    ensures RangeDistinct(t, pid, addr, len) ==> RangeDistinct(u, pid, At(addr, 1), len - 1)
    ensures forall pa: nat | Misses(t, pid, addr, len, pa) :: Misses(u, pid, At(addr, 1), len - 1, pa)
  {
    forall i: nat | i < len - 1
      ensures At(At(addr, 1), i) == At(addr, i + 1)
      ensures Translate(u, pid, At(At(addr, 1), i)) == Translate(t, pid, At(addr, i + 1))
      ensures Mapped(u, pid, At(At(addr, 1), i)) == Mapped(t, pid, At(addr, i + 1))
    {
      AtStep(addr, i);
    }
    hide At, Translate, Mapped, SameMap;
  }
}
