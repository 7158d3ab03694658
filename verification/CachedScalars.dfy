/** 16- and 32-bit integers through the cache: big-endian bytes, two's complement for the signed types. */
module CachedScalars {
  import opened Words
  import opened Sram
  import opened CacheSets
  import opened PageCacheModel
  import opened PagedViews
  import opened PageCacheRuns
  import opened StoredBytes

  type i16 = x: int | -0x8000 <= x < 0x8000
  type i32 = x: int | -0x8000_0000 <= x < 0x8000_0000

  /** The low 16 or 32 bits of the value, most significant byte first. */
  function Bytes16(x: int): (b: seq<u8>)
    ensures |b| == 2
  {
    [Wrap8(x / 0x100), Wrap8(x)]
  }

  function Bytes32(x: int): (b: seq<u8>)
    ensures |b| == 4
  {
    [Wrap8(x / 0x100_0000), Wrap8(x / 0x1_0000), Wrap8(x / 0x100), Wrap8(x)]
  }

  function Join(bytes: seq<u8>): (x: nat) {
    if bytes == [] then 0 else Join(bytes[..|bytes| - 1]) * 0x100 + bytes[|bytes| - 1]
  }

  function Signed16(x: u16): i16 { if x < 0x8000 then x else x - 0x1_0000 }

  function Signed32(x: u32): i32 { if x < 0x8000_0000 then x else x - 0x1_0000_0000 }

  lemma JoinTwo(b: seq<u8>)
    requires |b| == 2
    ensures Join(b) == (b[0] as int) * 0x100 + b[1]
  {
    assert Join(b[..1]) == Join(b[..1][..0]) * 0x100 + b[0];
  }

  lemma JoinFour(b: seq<u8>)
    requires |b| == 4
    ensures Join(b) == (b[0] as int) * 0x100_0000 + (b[1] as int) * 0x1_0000 + (b[2] as int) * 0x100 + b[3]
  {
    JoinTwo(b[..2]);
    assert b[..3][..2] == b[..2];
    assert Join(b[..3]) == Join(b[..2]) * 0x100 + b[2];
  }

  /** Splitting off one more byte above the low k: the low part grows by that byte. */
  lemma LowBytes(x: int, m: int)
    requires m == 0x100 || m == 0x1_0000 || m == 0x100_0000
    ensures x % (m * 0x100) == (Wrap8(x / m) as int) * m + x % m
  {
    var q := x / m / 0x100;
    var r := (Wrap8(x / m) as int) * m + x % m;
    assert x / m == q * 0x100 + Wrap8(x / m);
    if m == 0x100 {
      QuotientIs(x, 0x1_0000, q, r);
    } else if m == 0x1_0000 {
      QuotientIs(x, 0x100_0000, q, r);
    } else {
      QuotientIs(x, 0x1_0000_0000, q, r);
    }
  }

  lemma JoinBytes16(x: int)
    ensures Join(Bytes16(x)) == Wrap16(x)
  {
    JoinTwo(Bytes16(x));
    LowBytes(x, 0x100);
  }

  lemma JoinBytes32(x: int)
    ensures Join(Bytes32(x)) == Wrap32(x)
  {
    JoinFour(Bytes32(x));
    LowBytes(x, 0x100);
    LowBytes(x, 0x1_0000);
    LowBytes(x, 0x100_0000);
  }

  /** A 16-bit value, signed or not, reads back unchanged wherever its two bytes are mapped. */
  lemma Scalar16RoundTrip(s: State, pid: u8, addr: u32, x: int)
    requires Shaped(s.cache) && RangeMapped(s.table, pid, addr, 2)
    ensures var b := Code.CachedBytes(Code.WriteArray(s, pid, addr, Bytes16(x)), pid, addr, 2);
      && Join(b) == Wrap16(x)
      && (0 <= x < 0x1_0000 ==> Join(b) == x)
      && (-0x8000 <= x < 0x8000 ==> Signed16(Wrap16(x)) == x)
  {
    JoinBytes16(x);
    hide Shaped, Code.WriteArray, Code.CachedBytes, PeekArray, RangeMapped, RangeDistinct, Join, Bytes16;
    ShortRangeDistinct(s.table, pid, addr, 2);
    CachedArrayRoundTrip(s, pid, addr, Bytes16(x));
  }

  /** A 32-bit value likewise. */
  lemma Scalar32RoundTrip(s: State, pid: u8, addr: u32, x: int)
    requires Shaped(s.cache) && RangeMapped(s.table, pid, addr, 4)
    ensures var b := Code.CachedBytes(Code.WriteArray(s, pid, addr, Bytes32(x)), pid, addr, 4);
      && Join(b) == Wrap32(x)
      && (0 <= x < 0x1_0000_0000 ==> Join(b) == x)
      && (-0x8000_0000 <= x < 0x8000_0000 ==> Signed32(Wrap32(x)) == x)
  {
    JoinBytes32(x);
    hide Shaped, Code.WriteArray, Code.CachedBytes, PeekArray, RangeMapped, RangeDistinct, Join, Bytes32;
    ShortRangeDistinct(s.table, pid, addr, 4);
    CachedArrayRoundTrip(s, pid, addr, Bytes32(x));
  }

  /** Both after any run of public calls whatever. */
  lemma RunScalarRoundTrips(mem: Memory, ops: seq<Op>, pid: u8, addr: u32, x: int)
    ensures var s := Run(Initial(mem), ops);
      && (RangeMapped(s.table, pid, addr, 2) ==>
            Join(Code.CachedBytes(Code.WriteArray(s, pid, addr, Bytes16(x)), pid, addr, 2)) == Wrap16(x))
      && (RangeMapped(s.table, pid, addr, 4) ==>
            Join(Code.CachedBytes(Code.WriteArray(s, pid, addr, Bytes32(x)), pid, addr, 4)) == Wrap32(x))
  {
    hide Run, RangeMapped, Code.WriteArray, Code.CachedBytes, Shaped, Join, Bytes16, Bytes32;
    var s := Run(Initial(mem), ops);
    ReachableShaped(mem, ops);
    if RangeMapped(s.table, pid, addr, 2) { Scalar16RoundTrip(s, pid, addr, x); }
    if RangeMapped(s.table, pid, addr, 4) { Scalar32RoundTrip(s, pid, addr, x); }
  }
}
