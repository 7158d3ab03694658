/** The external 128 KB byte memory (23LC1024) as a value. */
module Sram {
  import opened Words

  const SRAM_SIZE := 131072
  const CACHE_LINE_SIZE := 32
  const TOTAL_TAGS := 4096

  type Memory = m: seq<u8> | |m| == SRAM_SIZE witness seq(SRAM_SIZE, _ => 0)

  type LineData = d: seq<u8> | |d| == CACHE_LINE_SIZE witness seq(CACHE_LINE_SIZE, _ => 0)

  /** The bytes of the cache line with this tag. */
  function Line(m: Memory, tag: nat): LineData
    requires tag < TOTAL_TAGS
  {
    m[tag * CACHE_LINE_SIZE..tag * CACHE_LINE_SIZE + CACHE_LINE_SIZE]
  }

  /** A sequential block read of n bytes; the chip's address counter wraps at the end of the array. */
  function BytesAt(m: Memory, addr: u32, n: nat): (d: seq<u8>)
    ensures |d| == n
  {
    seq<u8>(n, j requires 0 <= j < n => m[Cell(addr, j)])
  }

  /** A sequential block write, wrapping likewise. */
  function Overwrite(m: Memory, addr: u32, d: seq<u8>): Memory
    requires |d| <= SRAM_SIZE
  {
    seq<u8>(SRAM_SIZE, i requires 0 <= i < SRAM_SIZE => if Gap(addr, i) < |d| then d[Gap(addr, i)] else m[i])
  }

  /** The cell j steps on from the address, and the steps from the address to cell i. */
  function Cell(addr: u32, j: nat): nat { (addr + j) % SRAM_SIZE }

  function Gap(addr: u32, i: nat): nat { (i - addr) % SRAM_SIZE }

  lemma CellGap(addr: u32, j: nat)
    requires j < SRAM_SIZE
    ensures Gap(addr, Cell(addr, j)) == j && Cell(addr, Gap(addr, j)) == j
  {
    assert (addr + j) / SRAM_SIZE * SRAM_SIZE + Cell(addr, j) == addr + j;
    assert (j - addr) / SRAM_SIZE * SRAM_SIZE + Gap(addr, j) == j - addr;
  }

  /** A block write changes nothing iff the bytes were already there. */
  lemma OverwriteIdentityIff(m: Memory, addr: u32, d: seq<u8>)
    requires |d| <= SRAM_SIZE
    ensures Overwrite(m, addr, d) == m <==> BytesAt(m, addr, |d|) == d
  {
    var r := Overwrite(m, addr, d);
    forall j: nat | j < |d|
      ensures r[Cell(addr, j)] == d[j] && BytesAt(m, addr, |d|)[j] == m[Cell(addr, j)]
    {
      CellGap(addr, j);
    }
    hide Cell, Gap;
    if BytesAt(m, addr, |d|) == d {
      forall i: nat | i < SRAM_SIZE
        ensures r[i] == m[i]
      {
        CellGap(addr, i);
        if Gap(addr, i) < |d| {
          assert r[Cell(addr, Gap(addr, i))] == d[Gap(addr, i)];
        }
      }
    }
  }

  lemma AlignedBytes(m: Memory, tag: nat)
    requires tag < TOTAL_TAGS
    ensures BytesAt(m, tag * CACHE_LINE_SIZE, CACHE_LINE_SIZE) == Line(m, tag)
  {
  }

  /** Writing back a line that memory already holds changes nothing. */
  lemma WritebackIsIdentity(m: Memory, tag: nat)
    requires tag < TOTAL_TAGS
    ensures Overwrite(m, tag * CACHE_LINE_SIZE, Line(m, tag)) == m
  {
    AlignedBytes(m, tag);
    OverwriteIdentityIff(m, tag * CACHE_LINE_SIZE, Line(m, tag));
  }
}
