/** The integers of the target machine. */
module Machine {

  type Byte = b: int | 0 <= b < 0x100

  type Word = w: int | 0 <= w < 0x1_0000

  type Word32 = w: int | 0 <= w < 0x1_0000_0000

  function Min(a: int, b: int): int { if a < b then a else b }

  lemma ModShift(v: int, k: int)
    ensures (v + k * 0x1_0000_0000) % 0x1_0000_0000 == v % 0x1_0000_0000
  {
    assert v + k * 0x1_0000_0000 == (v / 0x1_0000_0000 + k) * 0x1_0000_0000 + v % 0x1_0000_0000;
  }
}
