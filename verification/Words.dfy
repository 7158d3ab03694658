/** Unsigned machine words of the AVR target and their wrap-around. */
module Words {

  type u8 = x: int | 0 <= x < 0x100
  type u16 = x: int | 0 <= x < 0x1_0000
  type u32 = x: int | 0 <= x < 0x1_0000_0000

  function Wrap8(x: int): u8 { x % 0x100 }

  function Wrap16(x: int): u16 { x % 0x1_0000 }

  function Wrap32(x: int): u32 { x % 0x1_0000_0000 }

  /** Quotient and remainder are unique. */
  lemma QuotientIs(x: int, m: int, q: int, r: int)
    requires m > 0 && x == q * m + r && 0 <= r < m
    ensures x / m == q && x % m == r
  {
    var d := q - x / m;
    assert d * m == x % m - r by {
      assert q * m == d * m + (x / m) * m;
    }
    assert d >= 1 ==> (d - 1) * m >= 0;
    assert d <= -1 ==> (-d - 1) * m >= 0;
  }
}
