/** The 7-byte block header in external memory: little-endian size, free flag, magic byte, owner. */
module HeapHeader {
  import opened Words
  import opened HeapBlocks

  const HEAP_MAGIC: u8 := 0xAA

  datatype Header = Header(size: u32, free: u8, magic: u8, owner: u8)

  function Encode(h: Header): (bytes: seq<u8>)
    ensures |bytes| == HEADER_SIZE
  {
    [Wrap8(h.size), Wrap8(h.size / 0x100), Wrap8(h.size / 0x1_0000), Wrap8(h.size / 0x100_0000),
     h.free, h.magic, h.owner]
  }

  function Decode(bytes: seq<u8>): Header
    requires |bytes| == HEADER_SIZE
  {
    Header(LittleEndian(bytes[0], bytes[1], bytes[2], bytes[3]), bytes[4], bytes[5], bytes[6])
  }

  function LittleEndian(b0: int, b1: int, b2: int, b3: int): (x: u32)
    requires 0 <= b0 < 0x100 && 0 <= b1 < 0x100 && 0 <= b2 < 0x100 && 0 <= b3 < 0x100
  {
    b0 + 0x100 * b1 + 0x1_0000 * b2 + 0x100_0000 * b3
  }

  /** Splitting a value into bytes and putting them together again, one byte at a time. */
  lemma BytesJoin(x: u32)
    ensures x == LittleEndian(Wrap8(x), Wrap8(x / 0x100), Wrap8(x / 0x1_0000), Wrap8(x / 0x100_0000))
  {
    var y, b0 := x / 0x100, x % 0x100;
    var z, b1 := y / 0x100, y % 0x100;
    var b3, b2 := z / 0x100, z % 0x100;
    assert x == b0 + 0x100 * b1 + 0x1_0000 * b2 + 0x100_0000 * b3;
    JoinBytes(b0, b1, b2, b3);
  }

  lemma JoinBytes(b0: u8, b1: u8, b2: u8, b3: u8)
    ensures var x := LittleEndian(b0, b1, b2, b3);
      Wrap8(x) == b0 && Wrap8(x / 0x100) == b1 && Wrap8(x / 0x1_0000) == b2 && Wrap8(x / 0x100_0000) == b3
  {
    var x := LittleEndian(b0, b1, b2, b3);
    QuotientIs(x, 0x100, b1 + 0x100 * b2 + 0x1_0000 * b3, b0);
    QuotientIs(x / 0x100, 0x100, b2 + 0x100 * b3, b1);
    QuotientIs(x, 0x1_0000, b2 + 0x100 * b3, b0 + 0x100 * b1);
    QuotientIs(x, 0x100_0000, b3, b0 + 0x100 * b1 + 0x1_0000 * b2);
  }

  lemma DecodeEncode(h: Header)
    ensures Decode(Encode(h)) == h
  {
    BytesJoin(h.size);
  }

  /** The layout: four bytes of size, the lowest first, then free flag, magic byte and owner. */
  lemma Layout(h: Header)
    ensures var e := Encode(h);
      && h.size == e[0] as int + 0x100 * (e[1] as int) + 0x1_0000 * (e[2] as int) + 0x100_0000 * (e[3] as int)
      && e[4] == h.free && e[5] == h.magic && e[6] == h.owner
  {
    BytesJoin(h.size);
  }

  lemma EncodeDecode(bytes: seq<u8>)
    requires |bytes| == HEADER_SIZE
    ensures Encode(Decode(bytes)) == bytes
  {
    JoinBytes(bytes[0], bytes[1], bytes[2], bytes[3]);
    hide LittleEndian;
  }

  /** Two headers with the same bytes are the same header. */
  lemma EncodeInjective(g: Header, h: Header)
    requires Encode(g) == Encode(h)
    ensures g == h
  {
    DecodeEncode(g);
    DecodeEncode(h);
    hide Encode, Decode;
  }

  /** The header a block is stored under. */
  function Stored(b: Block): Header
    requires b.size < 0x1_0000_0000
  {
    Header(b.size, if b.free then 1 else 0, HEAP_MAGIC, b.owner)
  }

  lemma StoredInjective(a: Block, b: Block)
    requires a.size < 0x1_0000_0000 && b.size < 0x1_0000_0000 && Encode(Stored(a)) == Encode(Stored(b))
    ensures a == b
  {
    EncodeInjective(Stored(a), Stored(b));
  }
}
